/** What happens when a wrapper is called (the inner `wrapper` of
    `create_mcp_tool_wrapper` in backend/mcp_handler.py): arguments with value `None`
    are dropped, calendar times are normalised to UTC text, argument names are
    remapped to the upstream tool's names, the tool is looked up afresh on its
    server and invoked, and the outcome is always turned into text. */
module ToolCall {
  import opened Outcomes
  import opened Text
  import opened ToolAdapter

  // ---------------------------------------------------------------------------
  // Arguments
  // ---------------------------------------------------------------------------

  /** An argument value as the conversation engine passes it. */
  datatype Value = Null | Str(s: string) | Int(i: int) | Bool(b: bool) | Float(x: real)

  /** Keyword arguments, by name. */
  type Args = map<string, Value>

  /** The keyword arguments without those whose value is `None`. */
  function DropNulls(kwargs: Args): Args {
    map k | k in kwargs && kwargs[k] != Null :: kwargs[k]
  }

  /** Dropping nulls removes exactly the `None`-valued arguments: no `None` is left,
      no other key is removed, and every kept value is unchanged. */
  lemma DropNullsExact(kwargs: Args)
    ensures var r := DropNulls(kwargs);
      && (forall k :: k in r ==> r[k] != Null)
      && (forall k :: k in kwargs ==> (k in r <==> kwargs[k] != Null))
      && (forall k :: k in r ==> k in kwargs && r[k] == kwargs[k])
  {
  }

  // ---------------------------------------------------------------------------
  // Calendar time normalisation
  // ---------------------------------------------------------------------------

  /** What parsing one string as an ISO-8601 time, moving it to UTC and writing it
      back out does: produce the UTC text, raise `ValueError` (the string is
      left as it was), or raise anything else (the call fails with that message). */
  datatype Conversion = Converted(utc: string) | Unparsable | ConversionError(message: string)

  /** The two keys whose string values are converted. */
  const TimeKeys: seq<string> := ["start_time", "end_time"]

  /** Converts the value under `key` if it is present and a string. */
  function ConvertKey(args: Args, key: string, toUtc: string -> Conversion): CallOutcome<Args> {
    if key in args && args[key].Str? then
      match toUtc(args[key].s)
      case Converted(utc) => Returned(args[key := Str(utc)])
      case Unparsable => Returned(args)
      case ConversionError(m) => Raised(m)
    else Returned(args)
  }

  /** The "pre-convert datetimes to UTC" step: only for a tool whose lower-cased name
      contains "calendar", `start_time` first, then `end_time`. */
  function NormalizeTimes(lname: string, args: Args, toUtc: string -> Conversion): CallOutcome<Args> {
    if Contains(lname, "calendar") then
      match ConvertKey(args, TimeKeys[0], toUtc)
      case Raised(m) => Raised(m)
      case Returned(a) => ConvertKey(a, TimeKeys[1], toUtc)
    else Returned(args)
  }

  /** The scope of time normalisation: the key set never changes; a non-calendar tool's
      arguments are untouched; only string `start_time`/`end_time` values can change;
      for a calendar tool each of them becomes its UTC text, or is kept as it was when
      the converter rejects it with `ValueError`. */
  lemma NormalizeTimesScope(lname: string, args: Args, toUtc: string -> Conversion)
    ensures var r := NormalizeTimes(lname, args, toUtc);
      && (!Contains(lname, "calendar") ==> r == Returned(args))
      && (r.Returned? ==>
            && r.value.Keys == args.Keys
            && (forall k :: k in args && k !in TimeKeys ==> r.value[k] == args[k])
            && (forall k :: k in args && !args[k].Str? ==> r.value[k] == args[k])
            && (forall k :: Contains(lname, "calendar") && k in TimeKeys && k in args && args[k].Str? ==>
                  match toUtc(args[k].s)
                  case Converted(u) => r.value[k] == Str(u)
                  case _ => r.value[k] == args[k]))
  {
    var r := NormalizeTimes(lname, args, toUtc);
    if Contains(lname, "calendar") && r.Returned? {
      var a := ConvertKey(args, TimeKeys[0], toUtc).value;
      forall k | k in TimeKeys && k in args && args[k].Str?
        ensures match toUtc(args[k].s)
                case Converted(u) => r.value[k] == Str(u)
                case _ => r.value[k] == args[k]
      {
        if k == TimeKeys[0] {
          assert r.value[k] == a[k];
        } else {
          assert k == TimeKeys[1];
          assert a[k] == args[k];
        }
      }
    }
  }

  /** A failure is raised only by the converter, and only on a string time value of a
      calendar tool. */
  lemma NormalizeTimesFailure(lname: string, args: Args, toUtc: string -> Conversion)
    ensures NormalizeTimes(lname, args, toUtc).Raised? <==>
      Contains(lname, "calendar") &&
      exists k :: k in TimeKeys && k in args && args[k].Str? && toUtc(args[k].s).ConversionError?
  {
    if Contains(lname, "calendar") && NormalizeTimes(lname, args, toUtc).Raised? {
      var k0 := TimeKeys[0];
      if ConvertKey(args, k0, toUtc).Raised? {
        assert k0 in TimeKeys;
      } else {
        assert TimeKeys[1] in TimeKeys;
      }
    }
  }

  // ---------------------------------------------------------------------------
  // Argument remapping
  // ---------------------------------------------------------------------------

  /** One rename rule: move the value under `src` to `dst`. */
  datatype Rename = Rename(src: string, dst: string)

  /** Applies a rule only when the source key is present and the target key absent. */
  function ApplyRename(m: Args, rule: Rename): Args {
    if rule.src in m && rule.dst !in m then (m - {rule.src})[rule.dst := m[rule.src]] else m
  }

  /** Applies the rules left to right. */
  function ApplyRenames(m: Args, rules: seq<Rename>): Args
    decreases |rules|
  {
    if rules == [] then m else ApplyRenames(ApplyRename(m, rules[0]), rules[1..])
  }

  /** The renames the source applies for a lower-cased tool name, in its order. */
  function ActiveRenames(lname: string): seq<Rename> {
    (if Contains(lname, "search") || Contains(lname, "crawl") then [Rename("input", "query")] else [])
    + (if Contains(lname, "calendar") then
         [Rename("start_time", "start_datetime"), Rename("end_time", "end_datetime")]
         + (if Contains(lname, "update_event") || Contains(lname, "delete_event")
            then [Rename("id", "event_id")] else [])
       else [])
    + (if Contains(lname, "send") && Contains(lname, "gmail") then [Rename("to", "recipient_email")] else [])
  }

  /** The "argument remapping logic" step. */
  function Remap(lname: string, m: Args): Args {
    ApplyRenames(m, ActiveRenames(lname))
  }

  /** Every key any rename rule mentions, as source or target. */
  const RuleKeys: set<string> :=
    {"input", "query", "start_time", "start_datetime", "end_time", "end_datetime",
     "id", "event_id", "to", "recipient_email"}

  predicate Mentions(rule: Rename, k: string) {
    k == rule.src || k == rule.dst
  }

  /** Two rules mention no key in common. */
  predicate Disjoint(a: Rename, b: Rename) {
    a.src != b.src && a.src != b.dst && a.dst != b.src && a.dst != b.dst
  }

  /** No key is mentioned by two rules, and no rule renames a key to itself. */
  predicate Independent(rules: seq<Rename>) {
    && (forall i :: 0 <= i < |rules| ==> rules[i].src != rules[i].dst)
    && (forall i, j :: 0 <= i < j < |rules| ==> Disjoint(rules[i], rules[j]))
  }

  /** The five rename rules of the source, in its order. */
  const AllRenames: seq<Rename> := [
    Rename("input", "query"), Rename("start_time", "start_datetime"), Rename("end_time", "end_datetime"),
    Rename("id", "event_id"), Rename("to", "recipient_email")]

  /** The rules of `rules` at the positions `keep` selects, in order. */
  function Select(keep: seq<bool>, rules: seq<Rename>): (r: seq<Rename>)
    requires |keep| == |rules|
    ensures forall x :: x in r ==> x in rules
  {
    if rules == [] then []
    else (if keep[0] then [rules[0]] else []) + Select(keep[1..], rules[1..])
  }

  /** The selection that the source's nested conditions make, on their truth values. */
  lemma SelectShape(input: bool, calendar: bool, eventId: bool, mail: bool)
    ensures Select([input, calendar, calendar, calendar && eventId, mail], AllRenames) ==
      (if input then [AllRenames[0]] else [])
      + (if calendar then [AllRenames[1], AllRenames[2]] + (if eventId then [AllRenames[3]] else []) else [])
      + (if mail then [AllRenames[4]] else [])
  {
    var k := [input, calendar, calendar, calendar && eventId, mail];
    var a := AllRenames;
    assert Select(k[5..], a[5..]) == [];
    assert Select(k[4..], a[4..]) == (if k[4] then [a[4]] else []);
    assert Select(k[3..], a[3..]) == (if k[3] then [a[3]] else []) + Select(k[4..], a[4..]);
    assert Select(k[2..], a[2..]) == (if k[2] then [a[2]] else []) + Select(k[3..], a[3..]);
    assert Select(k[1..], a[1..]) == (if k[1] then [a[1]] else []) + Select(k[2..], a[2..]);
  }

  lemma ActiveRenamesSelect(lname: string)
    ensures ActiveRenames(lname) == Select([
      Contains(lname, "search") || Contains(lname, "crawl"),
      Contains(lname, "calendar"), Contains(lname, "calendar"),
      Contains(lname, "calendar") && (Contains(lname, "update_event") || Contains(lname, "delete_event")),
      Contains(lname, "send") && Contains(lname, "gmail")], AllRenames)
  {
    SelectShape(Contains(lname, "search") || Contains(lname, "crawl"), Contains(lname, "calendar"),
      Contains(lname, "update_event") || Contains(lname, "delete_event"),
      Contains(lname, "send") && Contains(lname, "gmail"));
  }

  /** Each of the five rules' keys differ from each other and from every other rule's. */
  lemma AllRenamesIndependent()
    ensures Independent(AllRenames)
  {
    forall i, j | 0 <= i < j < |AllRenames|
      ensures Disjoint(AllRenames[i], AllRenames[j])
    {
    }
  }

  /** Any selection from independent rules is independent. */
  lemma {:induction false} SelectIndependent(keep: seq<bool>, rules: seq<Rename>)
    requires |keep| == |rules| && Independent(rules)
    ensures Independent(Select(keep, rules))
  {
    if rules != [] {
      var tail := rules[1..];
      assert Independent(tail) by {
        assert forall i :: 0 <= i < |tail| ==> tail[i] == rules[i + 1];
      }
      SelectIndependent(keep[1..], tail);
      var rest := Select(keep[1..], tail);
      forall x | x in rest
        ensures Disjoint(rules[0], x)
      {
        var j :| 0 <= j < |tail| && tail[j] == x;
        assert rules[j + 1] == x;
      }
      if keep[0] {
        var r := [rules[0]] + rest;
        forall i, j | 0 <= i < j < |r|
          ensures Disjoint(r[i], r[j])
        {
          assert r[j] == rest[j - 1];
          if i > 0 {
            assert r[i] == rest[i - 1];
          }
        }
        assert forall i :: 0 < i < |r| ==> r[i] == rest[i - 1];
      } else {
        assert Select(keep, rules) == rest;
      }
    }
  }

  lemma ActiveRenamesIndependent(lname: string)
    ensures Independent(ActiveRenames(lname))
    ensures forall i :: 0 <= i < |ActiveRenames(lname)| ==>
      ActiveRenames(lname)[i].src in RuleKeys && ActiveRenames(lname)[i].dst in RuleKeys
  {
    ActiveRenamesSelect(lname);
    var keep := [
      Contains(lname, "search") || Contains(lname, "crawl"),
      Contains(lname, "calendar"), Contains(lname, "calendar"),
      Contains(lname, "calendar") && (Contains(lname, "update_event") || Contains(lname, "delete_event")),
      Contains(lname, "send") && Contains(lname, "gmail")];
    AllRenamesIndependent();
    SelectIndependent(keep, AllRenames);
    assert forall r :: r in AllRenames ==> r.src in RuleKeys && r.dst in RuleKeys;
  }

  /** A key no rule mentions is untouched by renaming. */
  lemma {:induction false} RenamesKeepOtherKeys(m: Args, rules: seq<Rename>, k: string)
    requires forall i :: 0 <= i < |rules| ==> !Mentions(rules[i], k)
    ensures var r := ApplyRenames(m, rules);
      (k in r <==> k in m) && (k in m ==> r[k] == m[k])
    decreases |rules|
  {
    if rules != [] {
      RenamesKeepOtherKeys(ApplyRename(m, rules[0]), rules[1..], k);
    }
  }

  /** One rename keeps the number of keys. */
  lemma ApplyRenameSize(m: Args, rule: Rename)
    requires rule.src != rule.dst
    ensures |ApplyRename(m, rule)| == |m|
  {
    if rule.src in m && rule.dst !in m {
      var m' := m - {rule.src};
      assert m'.Keys == m.Keys - {rule.src};
      assert |m'.Keys| == |m.Keys| - 1;
      assert m'[rule.dst := m[rule.src]].Keys == m'.Keys + {rule.dst};
    }
  }

  /** Renaming keeps the number of keys. */
  lemma {:induction false} RenamesKeepSize(m: Args, rules: seq<Rename>)
    requires forall i :: 0 <= i < |rules| ==> rules[i].src != rules[i].dst
    ensures |ApplyRenames(m, rules)| == |m|
    decreases |rules|
  {
    if rules != [] {
      ApplyRenameSize(m, rules[0]);
      RenamesKeepSize(ApplyRename(m, rules[0]), rules[1..]);
    }
  }

  /** The effect of the rule at position `i` of independent rules: when its source is
      present and its target absent, the value moves; otherwise both keys keep their
      presence and values. */
  lemma {:induction false} RenamesEffect(m: Args, rules: seq<Rename>, i: nat)
    requires Independent(rules) && i < |rules|
    ensures var r := ApplyRenames(m, rules); var rule := rules[i];
      if rule.src in m && rule.dst !in m then
        rule.src !in r && rule.dst in r && r[rule.dst] == m[rule.src]
      else
        && (rule.src in r <==> rule.src in m) && (rule.src in m ==> r[rule.src] == m[rule.src])
        && (rule.dst in r <==> rule.dst in m) && (rule.dst in m ==> r[rule.dst] == m[rule.dst])
    decreases |rules|
  {
    var rule := rules[i];
    var m1 := ApplyRename(m, rules[0]);
    var rest := rules[1..];
    assert Independent(rest) by {
      forall a, b | 0 <= a < b < |rest|
        ensures Disjoint(rest[a], rest[b])
      {
        assert rest[a] == rules[a + 1] && rest[b] == rules[b + 1];
      }
    }
    if i == 0 {
      forall j | 0 <= j < |rest|
        ensures !Mentions(rest[j], rule.src) && !Mentions(rest[j], rule.dst)
      {
        assert rest[j] == rules[j + 1];
        assert Disjoint(rules[0], rules[j + 1]);
      }
      RenamesKeepOtherKeys(m1, rest, rule.src);
      RenamesKeepOtherKeys(m1, rest, rule.dst);
    } else {
      assert rest[i - 1] == rule;
      assert Disjoint(rules[0], rules[i]);
      RenamesEffect(m1, rest, i - 1);
    }
  }

  /** After renaming, no rule can fire any more: each source that is still present
      sits next to its target. */
  lemma {:induction false} RenamesSaturate(m: Args, rules: seq<Rename>)
    requires Independent(rules)
    ensures var r := ApplyRenames(m, rules);
      forall i :: 0 <= i < |rules| && rules[i].src in r ==> rules[i].dst in r
  {
    var r := ApplyRenames(m, rules);
    forall i | 0 <= i < |rules| && rules[i].src in r
      ensures rules[i].dst in r
    {
      RenamesEffect(m, rules, i);
    }
  }

  /** Rules that cannot fire leave a mapping unchanged. */
  lemma {:induction false} RenamesIdle(m: Args, rules: seq<Rename>)
    requires forall i :: 0 <= i < |rules| && rules[i].src in m ==> rules[i].dst in m
    ensures ApplyRenames(m, rules) == m
    decreases |rules|
  {
    if rules != [] {
      assert ApplyRename(m, rules[0]) == m;
      RenamesIdle(m, rules[1..]);
    }
  }

  /** Remapping never overwrites a key that is present: every key of the input that
      is not a renamed source keeps its value, and a target key is filled only from
      its source. */
  lemma RemapNeverOverwrites(lname: string, m: Args)
    ensures var r := Remap(lname, m);
      forall k :: k in m && k in r ==> r[k] == m[k]
  {
    var rules := ActiveRenames(lname);
    var r := Remap(lname, m);
    ActiveRenamesIndependent(lname);
    forall k | k in m && k in r
      ensures r[k] == m[k]
    {
      if i :| 0 <= i < |rules| && Mentions(rules[i], k) {
        RenamesEffect(m, rules, i);
      } else {
        RenamesKeepOtherKeys(m, rules, k);
      }
    }
  }

  /** Only the keys named by a rule can change: every other key keeps its presence
      and its value. */
  lemma RemapOnlyRuleKeys(lname: string, m: Args)
    ensures var r := Remap(lname, m);
      forall k :: k !in RuleKeys ==> (k in r <==> k in m) && (k in m ==> r[k] == m[k])
  {
    ActiveRenamesIndependent(lname);
    var rules := ActiveRenames(lname);
    forall k | k !in RuleKeys
      ensures var r := Remap(lname, m); (k in r <==> k in m) && (k in m ==> r[k] == m[k])
    {
      RenamesKeepOtherKeys(m, rules, k);
    }
  }

  /** Remapping keeps the number of arguments. */
  lemma RemapKeepsCount(lname: string, m: Args)
    ensures |Remap(lname, m)| == |m|
  {
    ActiveRenamesIndependent(lname);
    RenamesKeepSize(m, ActiveRenames(lname));
  }

  /** Remapping a second time changes nothing. */
  lemma RemapIdempotent(lname: string, m: Args)
    ensures Remap(lname, Remap(lname, m)) == Remap(lname, m)
  {
    ActiveRenamesIndependent(lname);
    RenamesSaturate(m, ActiveRenames(lname));
    RenamesIdle(Remap(lname, m), ActiveRenames(lname));
  }

  /** Each active rule moves its value exactly when its source is present and its
      target absent. */
  lemma RemapMovesValue(lname: string, m: Args, rule: Rename)
    requires rule in ActiveRenames(lname)
    ensures var r := Remap(lname, m);
      if rule.src in m && rule.dst !in m then
        rule.src !in r && rule.dst in r && r[rule.dst] == m[rule.src]
      else
        (rule.src in r <==> rule.src in m) && (rule.dst in r <==> rule.dst in m)
  {
    ActiveRenamesIndependent(lname);
    var i :| 0 <= i < |ActiveRenames(lname)| && ActiveRenames(lname)[i] == rule;
    RenamesEffect(m, ActiveRenames(lname), i);
  }

  // ---------------------------------------------------------------------------
  // The whole argument pipeline
  // ---------------------------------------------------------------------------

  /** The arguments sent upstream, or the message of the exception that stopped the
      pipeline: drop `None`s, normalise calendar times, remap names. */
  function PrepareArgs(originalName: string, kwargs: Args, toUtc: string -> Conversion): CallOutcome<Args> {
    var lname := Lower(originalName);
    match NormalizeTimes(lname, DropNulls(kwargs), toUtc)
    case Raised(m) => Raised(m)
    case Returned(a) => Returned(Remap(lname, a))
  }

  /** The prepared arguments hold no `None`, have as many keys as the non-`None`
      arguments, and agree with them on every key no rename rule names. */
  lemma PrepareArgsShape(originalName: string, kwargs: Args, toUtc: string -> Conversion)
    ensures var p := PrepareArgs(originalName, kwargs, toUtc);
      p.Returned? ==>
        && |p.value| == |DropNulls(kwargs)|
        && (forall k :: k in p.value ==> p.value[k] != Null)
        && (forall k :: k !in RuleKeys && k !in TimeKeys ==>
              (k in p.value <==> k in kwargs && kwargs[k] != Null)
              && (k in p.value ==> p.value[k] == kwargs[k]))
  {
    var lname := Lower(originalName);
    var n := NormalizeTimes(lname, DropNulls(kwargs), toUtc);
    NormalizeTimesScope(lname, DropNulls(kwargs), toUtc);
    if n.Returned? {
      RemapKeepsCount(lname, n.value);
      assert |n.value| == |DropNulls(kwargs)| by {
        assert n.value.Keys == DropNulls(kwargs).Keys;
      }
      RemapOnlyRuleKeys(lname, n.value);
      var r := Remap(lname, n.value);
      forall k | k in r
        ensures r[k] != Null
      {
        RemapValueOrigin(lname, n.value, k);
      }
    }
  }

  /** Every value after remapping was some value before it. */
  lemma RemapValueOrigin(lname: string, m: Args, k: string)
    requires k in Remap(lname, m)
    ensures exists k' :: k' in m && m[k'] == Remap(lname, m)[k]
  {
    var rules := ActiveRenames(lname);
    ActiveRenamesIndependent(lname);
    if i :| 0 <= i < |rules| && Mentions(rules[i], k) {
      RenamesEffect(m, rules, i);
    } else {
      RenamesKeepOtherKeys(m, rules, k);
    }
  }

  // ---------------------------------------------------------------------------
  // Invocation and the result contract
  // ---------------------------------------------------------------------------

  /** A tool's raw result: a dict, list or tuple (whose `json.dumps(result, indent=2)`
      either produced `rendering`'s text or raised), or any other value, whose `str()`
      is `text`. */
  datatype RawResult = Structured(rendering: CallOutcome<string>) | Plain(text: string)

  /** A freshly opened session to the wrapper's server: the names of its live tools
      (or the failure to open the session or list them), and what invoking the live
      tool at a position with given arguments does. */
  datatype Session = Session(listing: CallOutcome<seq<string>>, invoke: (nat, Args) -> CallOutcome<RawResult>)

  const NotInitializedMessage: string := "Error: MCP client not initialized"
  const ToolErrorPrefix: string := "MCP tool error: "

  function NotFoundMessage(originalName: string, server: string): string {
    "Error: Tool '" + originalName + "' not found on server '" + server + "'"
  }

  /** The position of the first listed tool with exactly the given name, or `None`. */
  function FindTool(names: seq<string>, name: string): (r: Option<nat>)
    ensures r.None? <==> name !in names
    ensures r.Some? ==>
      (r.value < |names| && names[r.value] == name && forall j :: 0 <= j < r.value ==> names[j] != name)
  {
    if names == [] then None
    else if names[0] == name then Some(0)
    else match FindTool(names[1..], name)
      case None => None
      case Some(i) => Some(i + 1)
  }

  /** Turns a raw result into text. */
  function Render(raw: RawResult): CallOutcome<string> {
    match raw
    case Structured(rendering) => rendering
    case Plain(text) => Returned(text)
  }

  /** Everything inside the source's `try`: prepare arguments, look the tool up on a
      fresh session, invoke it, render its result. */
  function Attempt(w: ToolWrapper, kwargs: Args, toUtc: string -> Conversion, session: Session): CallOutcome<string> {
    match PrepareArgs(w.originalName, kwargs, toUtc)
    case Raised(m) => Raised(m)
    case Returned(args) =>
      match session.listing
      case Raised(m) => Raised(m)
      case Returned(names) =>
        match FindTool(names, w.originalName)
        case None => Returned(NotFoundMessage(w.originalName, w.serverName))
        case Some(i) =>
          match session.invoke(i, args)
          case Raised(m) => Raised(m)
          case Returned(raw) => Render(raw)
  }

  /** The wrapper's body: text for every outcome the model has, never an `Exception`. */
  function InvokeTool(w: ToolWrapper, clientReady: bool, kwargs: Args, toUtc: string -> Conversion, session: Session)
    : string
  {
    if !clientReady then NotInitializedMessage
    else match Attempt(w, kwargs, toUtc, session)
      case Raised(m) => ToolErrorPrefix + m
      case Returned(text) => text
  }

  /** The four kinds of reply: "not initialized" without a client; the error prefix
      followed by the message of any exception raised while preparing, listing,
      invoking or rendering; the not-found message when no live tool has the exact
      original name; otherwise the rendered result of invoking the first live tool of
      that name with the prepared arguments. */
  lemma InvokeToolReplies(w: ToolWrapper, clientReady: bool, kwargs: Args, toUtc: string -> Conversion, session: Session)
    ensures var reply := InvokeTool(w, clientReady, kwargs, toUtc, session);
      var prep := PrepareArgs(w.originalName, kwargs, toUtc);
      && (!clientReady ==> reply == NotInitializedMessage)
      && (clientReady && prep.Raised? ==> reply == ToolErrorPrefix + prep.message)
      && (clientReady && prep.Returned? && session.listing.Raised? ==>
            reply == ToolErrorPrefix + session.listing.message)
      && (clientReady && prep.Returned? && session.listing.Returned? ==>
            var names := session.listing.value;
            && (w.originalName !in names ==> reply == NotFoundMessage(w.originalName, w.serverName))
            && (w.originalName in names ==>
                  exists i :: 0 <= i < |names| && names[i] == w.originalName
                    && (forall j :: 0 <= j < i ==> names[j] != w.originalName)
                    && match session.invoke(i, prep.value)
                       case Raised(m) => reply == ToolErrorPrefix + m
                       case Returned(raw) =>
                         match Render(raw)
                         case Raised(m) => reply == ToolErrorPrefix + m
                         case Returned(text) => reply == text))
  {
    var prep := PrepareArgs(w.originalName, kwargs, toUtc);
    if clientReady && prep.Returned? && session.listing.Returned? {
      var names := session.listing.value;
      if w.originalName in names {
        var i := FindTool(names, w.originalName).value;
        assert 0 <= i < |names| && names[i] == w.originalName;
      }
    }
  }

  /** An upstream invocation that raises yields text starting with the error prefix. */
  lemma InvokeFailureIsReported(w: ToolWrapper, kwargs: Args, toUtc: string -> Conversion, session: Session)
    requires PrepareArgs(w.originalName, kwargs, toUtc).Returned?
    requires session.listing.Returned?
    requires var i := FindTool(session.listing.value, w.originalName);
      i.Some? && session.invoke(i.value, PrepareArgs(w.originalName, kwargs, toUtc).value).Raised?
    ensures StartsWith(InvokeTool(w, true, kwargs, toUtc, session), ToolErrorPrefix)
  {
    var reply := InvokeTool(w, true, kwargs, toUtc, session);
    var m := reply[|ToolErrorPrefix|..];
    assert reply == ToolErrorPrefix + m;
  }

  /** A tool missing from the freshly listed catalogue yields text saying "not found". */
  lemma MissingToolIsReported(w: ToolWrapper, kwargs: Args, toUtc: string -> Conversion, session: Session)
    requires PrepareArgs(w.originalName, kwargs, toUtc).Returned?
    requires session.listing.Returned? && w.originalName !in session.listing.value
    ensures Contains(InvokeTool(w, true, kwargs, toUtc, session), "not found")
  {
    var pre := "Error: Tool '" + w.originalName + "' ";
    var post := " on server '" + w.serverName + "'";
    assert NotFoundMessage(w.originalName, w.serverName) == pre + "not found" + post;
    ContainsInfix(pre, "not found", post);
  }
}
