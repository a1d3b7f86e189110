/** The JSON text of the memory list that the memory bridge builds with
    Python's `json.dumps` (backend/memory_handler.py): default separators `", "` and
    `": "`, keys in insertion order, and `ensure_ascii` escaping of strings. */
module Json {

  import opened Outcomes

  /** One entry of the serialised memory list: only the memory text and its update
      timestamp. */
  datatype MemoryEntry = MemoryEntry(memory: string, updatedAt: string)

  predicate IsPrintableAscii(c: char) {
    ' ' <= c <= '~'
  }

  function HexDigit(d: nat): (c: char)
    requires d < 16
    ensures IsPrintableAscii(c)
  {
    if d < 10 then ('0' as int + d) as char else ('a' as int + d - 10) as char
  }

  /** Four lower-case hexadecimal digits, as `'{0:04x}'.format(n)` writes them. */
  function Hex4(n: nat): (r: string)
    requires n < 0x10000
    ensures |r| == 4
  {
    [HexDigit(n / 16 / 16 / 16), HexDigit(n / 16 / 16 % 16), HexDigit(n / 16 % 16), HexDigit(n % 16)]
  }

  /** How `json.dumps` writes one character of a string with `ensure_ascii`: a quote
      and a backslash are escaped, five controls get their short escapes, the rest of
      printable ASCII is kept, and every other character becomes `\uXXXX` (a pair of
      surrogate escapes above the Basic Multilingual Plane). */
  function EscapeChar(c: char): string {
    var n := c as int;
    if c == '"' then "\\\""
    else if c == '\\' then "\\\\"
    else if n == 0x08 then "\\b"
    else if n == 0x0C then "\\f"
    else if c == '\n' then "\\n"
    else if c == '\r' then "\\r"
    else if c == '\t' then "\\t"
    else if IsPrintableAscii(c) then [c]
    else if n < 0x10000 then "\\u" + Hex4(n)
    else
      var v := n - 0x10000;
      "\\u" + Hex4(0xD800 + v / 0x400) + "\\u" + Hex4(0xDC00 + v % 0x400)
  }

  function EscapeString(s: string): string {
    if s == [] then [] else EscapeChar(s[0]) + EscapeString(s[1..])
  }

  /** A JSON string literal. */
  function Quote(s: string): string {
    "\"" + EscapeString(s) + "\""
  }

  /** `{"memory": ..., "updated_at": ...}`. */
  function EncodeEntry(e: MemoryEntry): string {
    "{\"memory\": " + Quote(e.memory) + ", \"updated_at\": " + Quote(e.updatedAt) + "}"
  }

  function JoinEntries(es: seq<MemoryEntry>): string {
    if es == [] then []
    else if |es| == 1 then EncodeEntry(es[0])
    else EncodeEntry(es[0]) + ", " + JoinEntries(es[1..])
  }

  /** The memory list serialised as JSON, as the loader does it. */
  function EncodeMemories(es: seq<MemoryEntry>): string {
    "[" + JoinEntries(es) + "]"
  }

  predicate AllPrintableAscii(s: string) {
    forall i :: 0 <= i < |s| ==> IsPrintableAscii(s[i])
  }

  lemma PrintableConcat(a: string, b: string)
    requires AllPrintableAscii(a) && AllPrintableAscii(b)
    ensures AllPrintableAscii(a + b)
  {
    forall i | 0 <= i < |a + b|
      ensures IsPrintableAscii((a + b)[i])
    {
      if i >= |a| {
        assert (a + b)[i] == b[i - |a|];
      }
    }
  }

  lemma EscapeCharPrintable(c: char)
    ensures AllPrintableAscii(EscapeChar(c))
  {
    var n := c as int;
    if !IsPrintableAscii(c) && n >= 0x10000 {
      var v := n - 0x10000;
      PrintableConcat("\\u", Hex4(0xD800 + v / 0x400));
      PrintableConcat("\\u" + Hex4(0xD800 + v / 0x400), "\\u");
      PrintableConcat("\\u" + Hex4(0xD800 + v / 0x400) + "\\u", Hex4(0xDC00 + v % 0x400));
    } else if !IsPrintableAscii(c) && n != 0x08 && n != 0x0C && c != '\n' && c != '\r' && c != '\t' {
      PrintableConcat("\\u", Hex4(n));
    }
  }

  lemma {:induction false} EscapeStringPrintable(s: string)
    ensures AllPrintableAscii(EscapeString(s))
  {
    if s != [] {
      EscapeCharPrintable(s[0]);
      EscapeStringPrintable(s[1..]);
      PrintableConcat(EscapeChar(s[0]), EscapeString(s[1..]));
    }
  }

  lemma QuotePrintable(s: string)
    ensures AllPrintableAscii(Quote(s))
  {
    EscapeStringPrintable(s);
    PrintableConcat("\"", EscapeString(s));
    PrintableConcat("\"" + EscapeString(s), "\"");
  }

  lemma EncodeEntryPrintable(e: MemoryEntry)
    ensures AllPrintableAscii(EncodeEntry(e))
  {
    QuotePrintable(e.memory);
    QuotePrintable(e.updatedAt);
    var a := "{\"memory\": ";
    PrintableConcat(a, Quote(e.memory));
    PrintableConcat(a + Quote(e.memory), ", \"updated_at\": ");
    PrintableConcat(a + Quote(e.memory) + ", \"updated_at\": ", Quote(e.updatedAt));
    PrintableConcat(a + Quote(e.memory) + ", \"updated_at\": " + Quote(e.updatedAt), "}");
  }

  lemma {:induction false} JoinEntriesPrintable(es: seq<MemoryEntry>)
    ensures AllPrintableAscii(JoinEntries(es))
  {
    if |es| == 1 {
      EncodeEntryPrintable(es[0]);
    } else if |es| > 1 {
      EncodeEntryPrintable(es[0]);
      JoinEntriesPrintable(es[1..]);
      PrintableConcat(EncodeEntry(es[0]), ", ");
      PrintableConcat(EncodeEntry(es[0]) + ", ", JoinEntries(es[1..]));
    }
  }

  /** The serialised memory list is a bracketed, never empty, pure printable-ASCII
      text (what `ensure_ascii` promises), whatever characters the memories hold. */
  lemma EncodeMemoriesShape(es: seq<MemoryEntry>)
    ensures var s := EncodeMemories(es);
      |s| >= 2 && s[0] == '[' && s[|s| - 1] == ']' && AllPrintableAscii(s)
  {
    JoinEntriesPrintable(es);
    PrintableConcat("[", JoinEntries(es));
    PrintableConcat("[" + JoinEntries(es), "]");
  }

  // ---------------------------------------------------------------------------
  // Reading the list back
  // ---------------------------------------------------------------------------

  /** The value of a hexadecimal digit of either case. */
  function HexValue(c: char): (r: Option<nat>)
    ensures r.Some? ==> r.value < 16
  {
    if '0' <= c <= '9' then Some(c as int - '0' as int)
    else if 'a' <= c <= 'f' then Some(c as int - 'a' as int + 10)
    else if 'A' <= c <= 'F' then Some(c as int - 'A' as int + 10)
    else None
  }

  /** Four hexadecimal digits, most significant first. */
  function ReadHex4(s: string): (r: Option<nat>)
    requires |s| == 4
    ensures r.Some? ==> r.value < 0x10000
  {
    match (HexValue(s[0]), HexValue(s[1]), HexValue(s[2]), HexValue(s[3]))
    case (Some(a), Some(b), Some(c), Some(d)) => Some(((a * 16 + b) * 16 + c) * 16 + d)
    case _ => None
  }

  predicate IsHighSurrogate(n: int) { 0xD800 <= n < 0xDC00 }
  predicate IsLowSurrogate(n: int) { 0xDC00 <= n < 0xE000 }

  /** One escape sequence at the start of `s` (which begins with a backslash): the
      character it stands for and how many characters it spans. A `\uXXXX` high
      surrogate must be followed by a `\uXXXX` low surrogate, and the pair stands for
      one character beyond the Basic Multilingual Plane. */
  function ReadEscape(s: string): (r: Option<(char, nat)>)
    requires |s| > 0 && s[0] == '\\'
    ensures r.Some? ==> 2 <= r.value.1 <= |s|
  {
    if |s| < 2 then None
    else if s[1] == '"' then Some(('"', 2))
    else if s[1] == '\\' then Some(('\\', 2))
    else if s[1] == '/' then Some(('/', 2))
    else if s[1] == 'b' then Some((0x08 as char, 2))
    else if s[1] == 'f' then Some((0x0C as char, 2))
    else if s[1] == 'n' then Some(('\n', 2))
    else if s[1] == 'r' then Some(('\r', 2))
    else if s[1] == 't' then Some(('\t', 2))
    else if s[1] != 'u' || |s| < 6 then None
    else match ReadHex4(s[2..6])
      case None => None
      case Some(h) =>
        if IsLowSurrogate(h) then None
        else if !IsHighSurrogate(h) then Some((h as char, 6))
        else if |s| < 12 || s[6] != '\\' || s[7] != 'u' then None
        else match ReadHex4(s[8..12])
          case None => None
          case Some(l) =>
            if IsLowSurrogate(l) then Some(((0x10000 + (h - 0xD800) * 0x400 + (l - 0xDC00)) as char, 12))
            else None
  }

  /** The body of a string literal up to its closing quote: the string it denotes and
      the text after the quote. */
  function ReadString(s: string): (r: Option<(string, string)>)
    ensures r.Some? ==> |r.value.1| < |s|
    decreases |s|
  {
    if s == [] then None
    else if s[0] == '"' then Some(([], s[1..]))
    else if s[0] == '\\' then
      match ReadEscape(s)
      case None => None
      case Some((c, k)) =>
        match ReadString(s[k..])
        case None => None
        case Some((v, rest)) => Some(([c] + v, rest))
    else
      match ReadString(s[1..])
      case None => None
      case Some((v, rest)) => Some(([s[0]] + v, rest))
  }

  /** What precedes the memory text of an entry, opening quote included. */
  const MemoryKey: string := "{\"memory\": \""
  /** What lies between the closing quote of the memory and the opening quote of the
      timestamp. */
  const UpdatedKey: string := ", \"updated_at\": \""

  /** One entry at the start of `s`, and the text after it. */
  function ReadEntry(s: string): (r: Option<(MemoryEntry, string)>)
    ensures r.Some? ==> |r.value.1| < |s|
  {
    if |s| < |MemoryKey| || s[..|MemoryKey|] != MemoryKey then None
    else match ReadString(s[|MemoryKey|..])
      case None => None
      case Some((m, r1)) =>
        if |r1| < |UpdatedKey| || r1[..|UpdatedKey|] != UpdatedKey then None
        else match ReadString(r1[|UpdatedKey|..])
          case None => None
          case Some((u, r2)) =>
            if r2 == [] || r2[0] != '}' then None
            else Some((MemoryEntry(m, u), r2[1..]))
  }

  /** One or more entries separated by `", "` and closed by `]`. */
  function ReadEntries(s: string): Option<seq<MemoryEntry>>
    decreases |s|
  {
    match ReadEntry(s)
    case None => None
    case Some((e, rest)) =>
      if rest == "]" then Some([e])
      else if |rest| < 2 || rest[..2] != ", " then None
      else
        match ReadEntries(rest[2..])
        case None => None
        case Some(es) => Some([e] + es)
  }

  /** The memory list read back from its JSON text. */
  function DecodeMemories(s: string): Option<seq<MemoryEntry>> {
    if |s| < 2 || s[0] != '[' then None
    else if s[1..] == "]" then Some([])
    else ReadEntries(s[1..])
  }

  lemma HexDigitValue(d: nat)
    requires d < 16
    ensures HexValue(HexDigit(d)) == Some(d)
  {
  }

  lemma Hex4ReadsBack(n: nat)
    requires n < 0x10000
    ensures ReadHex4(Hex4(n)) == Some(n)
  {
    var q1 := n / 16;
    var q2 := q1 / 16;
    var q3 := q2 / 16;
    HexDigitValue(q3);
    HexDigitValue(q2 % 16);
    HexDigitValue(q1 % 16);
    HexDigitValue(n % 16);
    assert q2 == q3 * 16 + q2 % 16;
    assert q1 == q2 * 16 + q1 % 16;
    assert n == q1 * 16 + n % 16;
  }

  /** `\uXXXX` followed by anything reads back as the four digits' value. */
  lemma UnicodeEscapeReads(n: nat, rest: string)
    requires n < 0x10000
    ensures var s := "\\u" + Hex4(n) + rest;
      |s| >= 6 && s[0] == '\\' && s[1] == 'u' && ReadHex4(s[2..6]) == Some(n)
  {
    var s := "\\u" + Hex4(n) + rest;
    assert s[2..6] == Hex4(n);
    Hex4ReadsBack(n);
  }

  /** A character outside the Basic Multilingual Plane, written as a surrogate pair,
      reads back as itself. */
  lemma SurrogatePairReadsBack(c: char, rest: string)
    requires c as int >= 0x10000
    ensures var v := c as int - 0x10000;
      var s := "\\u" + Hex4(0xD800 + v / 0x400) + "\\u" + Hex4(0xDC00 + v % 0x400) + rest;
      ReadEscape(s) == Some((c, 12))
  {
    var v := c as int - 0x10000;
    var hi, lo := 0xD800 + v / 0x400, 0xDC00 + v % 0x400;
    var tail := "\\u" + Hex4(lo) + rest;
    var s := "\\u" + Hex4(hi) + "\\u" + Hex4(lo) + rest;
    assert s == "\\u" + Hex4(hi) + tail;
    UnicodeEscapeReads(hi, tail);
    UnicodeEscapeReads(lo, rest);
    assert s[6..] == tail;
    assert s[8..12] == tail[2..6];
    assert 0x10000 + (hi - 0xD800) * 0x400 + (lo - 0xDC00) == c as int;
  }

  /** Every escape `EscapeChar` writes reads back as its character and spans exactly
      the escape, whatever follows it. */
  lemma EscapeCharReadsBack(c: char, rest: string)
    requires EscapeChar(c)[0] == '\\'
    ensures ReadEscape(EscapeChar(c) + rest) == Some((c, |EscapeChar(c)|))
  {
    var n := c as int;
    var s := EscapeChar(c) + rest;
    if c == '"' || c == '\\' || n == 0x08 || n == 0x0C || c == '\n' || c == '\r' || c == '\t' {
      assert s[1] == EscapeChar(c)[1];
    } else if n < 0x10000 {
      UnicodeEscapeReads(n, rest);
    } else {
      SurrogatePairReadsBack(c, rest);
    }
  }

  /** `EscapeChar` writes a character as itself exactly when it is printable ASCII
      other than a quote or a backslash; otherwise it writes an escape. */
  lemma EscapeCharForm(c: char)
    ensures |EscapeChar(c)| > 0
    ensures EscapeChar(c)[0] != '"'
    ensures EscapeChar(c)[0] != '\\' ==> EscapeChar(c) == [c]
  {
  }

  /** The escaped body of a string, its closing quote and anything after, reads back
      as the string and what follows the quote. */
  lemma {:induction false} StringReadsBack(x: string, rest: string)
    ensures ReadString(EscapeString(x) + "\"" + rest) == Some((x, rest))
  {
    var s := EscapeString(x) + "\"" + rest;
    if x == [] {
      assert s == "\"" + rest;
    } else {
      var e := EscapeChar(x[0]);
      var tail := EscapeString(x[1..]) + "\"" + rest;
      assert s == e + tail;
      EscapeCharForm(x[0]);
      StringReadsBack(x[1..], rest);
      if e[0] == '\\' {
        EscapeCharReadsBack(x[0], tail);
        assert s[|e|..] == tail;
      } else {
        assert s[1..] == tail;
      }
      assert [x[0]] + x[1..] == x;
    }
  }

  lemma Assoc(a: string, b: string, c: string)
    ensures a + b + c == a + (b + c)
  {
  }

  lemma KeyLiterals()
    ensures "{\"memory\": " + "\"" == MemoryKey
    ensures ", \"updated_at\": " + "\"" == UpdatedKey
  {
  }

  /** An encoded entry followed by `rest`, cut where the reader cuts it. */
  lemma EntryLayout(e: MemoryEntry, rest: string)
    ensures EncodeEntry(e) + rest
      == MemoryKey + (EscapeString(e.memory) + "\"" + (UpdatedKey + (EscapeString(e.updatedAt) + "\"" + ("}" + rest))))
  {
    var em, eu := EscapeString(e.memory), EscapeString(e.updatedAt);
    var qm, qu := Quote(e.memory), Quote(e.updatedAt);
    var open, mid := "{\"memory\": ", ", \"updated_at\": ";
    KeyLiterals();
    var t := eu + "\"" + ("}" + rest);
    calc {
      EncodeEntry(e) + rest;
      open + qm + mid + qu + "}" + rest;
      { Assoc(open + qm + mid + qu, "}", rest); }
      open + qm + mid + qu + ("}" + rest);
      { Assoc(open + qm + mid, qu, "}" + rest); }
      open + qm + mid + (qu + ("}" + rest));
      { assert qu + ("}" + rest) == "\"" + t; }
      open + qm + mid + ("\"" + t);
      { Assoc(open + qm, mid, "\"" + t); Assoc(mid, "\"", t); }
      open + qm + (mid + "\"" + t);
      { Assoc(open + qm, mid + "\"", t); }
      open + qm + (mid + "\"") + t;
      { assert qm + (mid + "\"") == "\"" + (em + "\"" + UpdatedKey); }
      open + ("\"" + (em + "\"" + UpdatedKey)) + t;
      { assert open + ("\"" + (em + "\"" + UpdatedKey)) == MemoryKey + (em + "\"" + UpdatedKey); }
      MemoryKey + (em + "\"" + UpdatedKey) + t;
      { Assoc(MemoryKey, em + "\"" + UpdatedKey, t); Assoc(em + "\"", UpdatedKey, t); }
      MemoryKey + (em + "\"" + (UpdatedKey + t));
    }
  }

  /** An encoded entry followed by anything reads back as the entry and what follows. */
  lemma EntryReadsBack(e: MemoryEntry, rest: string)
    ensures ReadEntry(EncodeEntry(e) + rest) == Some((e, rest))
  {
    var s := EncodeEntry(e) + rest;
    var r2 := "}" + rest;
    var r1 := UpdatedKey + (EscapeString(e.updatedAt) + "\"" + r2);
    var afterKey := EscapeString(e.memory) + "\"" + r1;
    EntryLayout(e, rest);
    assert s[..|MemoryKey|] == MemoryKey && s[|MemoryKey|..] == afterKey;
    StringReadsBack(e.memory, r1);
    assert r1[..|UpdatedKey|] == UpdatedKey;
    assert r1[|UpdatedKey|..] == EscapeString(e.updatedAt) + "\"" + r2;
    StringReadsBack(e.updatedAt, r2);
    assert r2[1..] == rest;
  }

  /** The reader stops after an entry followed by the closing bracket. */
  lemma ReadEntriesLast(s: string, x: MemoryEntry)
    requires ReadEntry(s) == Some((x, "]"))
    ensures ReadEntries(s) == Some([x])
  {
  }

  /** The reader continues after an entry followed by `", "`. */
  lemma ReadEntriesNext(s: string, x: MemoryEntry, more: string, xs: seq<MemoryEntry>)
    requires ReadEntry(s) == Some((x, ", " + more)) && ReadEntries(more) == Some(xs)
    ensures ReadEntries(s) == Some([x] + xs)
  {
    var rest := ", " + more;
    assert rest != "]" && rest[..2] == ", " && rest[2..] == more;
  }

  /** An encoded list body starts with an entry and then, if more entries follow,
      with `", "`. */
  lemma JoinLayout(es: seq<MemoryEntry>)
    requires |es| > 1
    ensures JoinEntries(es) + "]" == EncodeEntry(es[0]) + (", " + (JoinEntries(es[1..]) + "]"))
  {
    var e, j := EncodeEntry(es[0]), JoinEntries(es[1..]);
    assert JoinEntries(es) == e + ", " + j;
    Assoc(e + ", ", j, "]");
    Assoc(e, ", ", j + "]");
  }

  lemma HeadTail(es: seq<MemoryEntry>)
    requires es != []
    ensures [es[0]] + es[1..] == es
  {
  }

  /** A one-entry list body reads back as that entry. */
  lemma OneEntryReadsBack(es: seq<MemoryEntry>)
    requires |es| == 1
    ensures ReadEntries(JoinEntries(es) + "]") == Some(es)
  {
    assert JoinEntries(es) == EncodeEntry(es[0]);
    EntryReadsBack(es[0], "]");
    ReadEntriesLast(JoinEntries(es) + "]", es[0]);
    assert [es[0]] == es;
  }

  /** A longer list body reads back once its tail does. */
  lemma MoreEntriesReadBack(es: seq<MemoryEntry>)
    requires |es| > 1 && ReadEntries(JoinEntries(es[1..]) + "]") == Some(es[1..])
    ensures ReadEntries(JoinEntries(es) + "]") == Some(es)
  {
    var e0, tail := es[0], es[1..];
    var more := JoinEntries(tail) + "]";
    var s := EncodeEntry(e0) + (", " + more);
    EntryReadsBack(e0, ", " + more);
    ReadEntriesNext(s, e0, more, tail);
    JoinLayout(es);
    HeadTail(es);
  }

  lemma {:induction false} EntriesReadBack(es: seq<MemoryEntry>)
    requires es != []
    ensures ReadEntries(JoinEntries(es) + "]") == Some(es)
  {
    if |es| == 1 {
      OneEntryReadsBack(es);
    } else {
      EntriesReadBack(es[1..]);
      MoreEntriesReadBack(es);
    }
  }

  /** An encoded list body is never empty. */
  lemma JoinEntriesNonEmpty(es: seq<MemoryEntry>)
    requires es != []
    ensures |JoinEntries(es)| > 0
  {
    var e := EncodeEntry(es[0]);
    assert |e| > 0 by {
      assert e == "{\"memory\": " + Quote(es[0].memory) + ", \"updated_at\": " + Quote(es[0].updatedAt) + "}";
    }
    if |es| > 1 {
      assert JoinEntries(es) == e + ", " + JoinEntries(es[1..]);
    }
  }

  /** Reading the serialised memory list back gives exactly the entries, in order:
      no memory or timestamp is lost, reordered or altered by the encoding. */
  lemma DecodeEncodeMemories(es: seq<MemoryEntry>)
    ensures DecodeMemories(EncodeMemories(es)) == Some(es)
  {
    var s := EncodeMemories(es);
    if es == [] {
      assert s == "[]";
    } else {
      var body := JoinEntries(es) + "]";
      assert s == "[" + body && s[1..] == body;
      JoinEntriesNonEmpty(es);
      assert body != "]";
      EntriesReadBack(es);
    }
  }

  /** Different memory lists never serialise to the same text. */
  lemma EncodeMemoriesInjective(a: seq<MemoryEntry>, b: seq<MemoryEntry>)
    requires EncodeMemories(a) == EncodeMemories(b)
    ensures a == b
  {
    DecodeEncodeMemories(a);
    DecodeEncodeMemories(b);
  }
}
