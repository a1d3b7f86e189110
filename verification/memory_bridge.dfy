/** The memory bridge (backend/memory_handler.py): at start, prior memories become at
    most one assistant seed turn; at shutdown, the conversation's user and assistant
    turns are filtered into one batch that is written only when it is non-empty. */
module MemoryBridge {
  import opened Outcomes
  import opened Text
  import opened Json

  // ---------------------------------------------------------------------------
  // Load
  // ---------------------------------------------------------------------------

  /** `Config.DEFAULT_USER`. */
  const DefaultUser: string := "default_user"

  /** A record returned by the memory service, field by field. */
  datatype MemoryRecord = MemoryRecord(fields: map<string, string>)

  /** A conversation item's content attribute: `None`, a string, a list (given by
      the `str()` of each element), or a value whose reading or stringifying raises. */
  datatype Content = NoContent | TextContent(text: string) | ListContent(parts: seq<string>) | FaultyContent(message: string)

  /** A conversation item: its `role` (`None` when it has none) and the content-like
      attributes it has. */
  datatype Item = Item(role: Option<string>, attrs: map<string, Content>)

  /** What `load_memories` hands on: the initial context, `memory_str` and `user_name`. */
  datatype Loaded = Loaded(context: seq<Item>, memoryStr: string, userName: string)

  /** The result of every failure path: empty context, empty `memory_str`, default user. */
  const Fallback: Loaded := Loaded([], "", DefaultUser)

  /** The memory list: for each record, in order, only its `memory` and `updated_at`
      fields; `None` when some record lacks one of them (the `KeyError` that sends
      loading to its fallback). */
  function Project(records: seq<MemoryRecord>): Option<seq<MemoryEntry>> {
    if records == [] then Some([])
    else if "memory" !in records[0].fields || "updated_at" !in records[0].fields then None
    else match Project(records[1..])
      case None => None
      case Some(rest) =>
        Some([MemoryEntry(records[0].fields["memory"], records[0].fields["updated_at"])] + rest)
  }

  predicate HasMemoryFields(r: MemoryRecord) {
    "memory" in r.fields && "updated_at" in r.fields
  }

  /** The memory list keeps the records' order and exactly their `memory` and
      `updated_at` values; it exists exactly when every record has both fields. */
  lemma {:induction false} ProjectKeepsOrderAndFields(records: seq<MemoryRecord>)
    ensures Project(records).Some? <==> forall i :: 0 <= i < |records| ==> HasMemoryFields(records[i])
    ensures Project(records).Some? ==>
      var es := Project(records).value;
      |es| == |records| &&
      forall i :: 0 <= i < |records| ==>
        es[i] == MemoryEntry(records[i].fields["memory"], records[i].fields["updated_at"])
  {
    if records != [] {
      ProjectKeepsOrderAndFields(records[1..]);
      if Project(records).Some? {
        var es := Project(records).value;
        assert forall i :: 1 <= i < |records| ==> es[i] == Project(records[1..]).value[i - 1];
        assert forall i :: 1 <= i < |records| ==> records[i] == records[1..][i - 1];
      } else if HasMemoryFields(records[0]) {
        assert !forall i :: 0 <= i < |records[1..]| ==> HasMemoryFields(records[1..][i]);
      }
    }
  }

  /** The seed turn's text. */
  function SeedText(userName: string, memoryStr: string): string {
    "The user's name is " + userName + ", and this is relevant context: " + memoryStr + "."
  }

  /** The seed turn as it appears in the conversation context: an assistant message
      whose `content` is the one-element list holding the seed text. */
  function SeedItem(userName: string, memoryStr: string): Item {
    Item(Some("assistant"), map["content" := ListContent([SeedText(userName, memoryStr)])])
  }

  /** `load_memories`. `apiKey` is `Config.MEM0_API_KEY`, `""` when unset; `fetched`
      is what `get_all` did: raised, or returned a response whose `results` list is
      given (`None` when the response is empty or has no results). */
  function LoadMemories(apiKey: string, fetched: CallOutcome<Option<seq<MemoryRecord>>>): Loaded {
    if apiKey == "" then Fallback
    else match fetched
      case Raised(_) => Fallback
      case Returned(None) => Loaded([], "", DefaultUser)
      case Returned(Some(records)) =>
        if records == [] then Loaded([], "", DefaultUser)
        else match Project(records)
          case None => Fallback
          case Some(entries) =>
            var memoryStr := EncodeMemories(entries);
            Loaded([SeedItem(DefaultUser, memoryStr)], memoryStr, DefaultUser)
  }

  /** Loading yields at most one turn, the user is always the default user, and
      either nothing was loaded (empty context and empty `memory_str`) or exactly one
      assistant seed turn embeds the user name and a non-empty `memory_str`, which is
      the serialised memory list of the fetched records, reading back as exactly their
      projected entries. */
  lemma LoadSeedShape(apiKey: string, fetched: CallOutcome<Option<seq<MemoryRecord>>>)
    ensures var l := LoadMemories(apiKey, fetched);
      && l.userName == DefaultUser
      && (l.context == [] <==> l.memoryStr == "")
      && (l.context != [] ==>
            && l.context == [SeedItem(l.userName, l.memoryStr)]
            && Contains(SeedText(l.userName, l.memoryStr), l.memoryStr)
            && Contains(SeedText(l.userName, l.memoryStr), l.userName)
            && fetched.Returned? && fetched.value.Some?
            && Project(fetched.value.value).Some?
            && l.memoryStr == EncodeMemories(Project(fetched.value.value).value)
            && DecodeMemories(l.memoryStr) == Project(fetched.value.value))
  {
    var l := LoadMemories(apiKey, fetched);
    if apiKey != "" && fetched.Returned? && fetched.value.Some? && fetched.value.value != []
      && Project(fetched.value.value).Some?
    {
      EncodeMemoriesShape(Project(fetched.value.value).value);
      DecodeEncodeMemories(Project(fetched.value.value).value);
      SeedTextEmbeds(l.userName, l.memoryStr);
    }
  }

  /** Whether loading reaches the seed: a key, a fetch that returned a non-empty
      results list, and every record carrying both fields. */
  predicate FoundMemories(apiKey: string, fetched: CallOutcome<Option<seq<MemoryRecord>>>) {
    && apiKey != "" && fetched.Returned? && fetched.value.Some? && fetched.value.value != []
    && Project(fetched.value.value).Some?
  }

  /** Memories found are always injected: the context is exactly the seed turn for the
      default user carrying the serialised memory list, which is also `memory_str`; and
      a context is seeded only then. A record lacking a field sends loading to its
      fallback instead. */
  lemma LoadSeedsFoundMemories(apiKey: string, fetched: CallOutcome<Option<seq<MemoryRecord>>>)
    ensures var l := LoadMemories(apiKey, fetched);
      && (FoundMemories(apiKey, fetched) ==>
            var memoryStr := EncodeMemories(Project(fetched.value.value).value);
            l == Loaded([SeedItem(DefaultUser, memoryStr)], memoryStr, DefaultUser))
      && (l.context != [] <==> FoundMemories(apiKey, fetched))
      && (apiKey != "" && fetched.Returned? && fetched.value.Some? && Project(fetched.value.value).None? ==>
            l == Fallback)
  {
  }

  /** The seed text holds both the user name and `memory_str`. */
  lemma SeedTextEmbeds(userName: string, memoryStr: string)
    ensures Contains(SeedText(userName, memoryStr), memoryStr)
    ensures Contains(SeedText(userName, memoryStr), userName)
  {
    var p := "The user's name is ";
    var q := ", and this is relevant context: ";
    assert SeedText(userName, memoryStr) == (p + userName + q) + memoryStr + ".";
    ContainsInfix(p + userName + q, memoryStr, ".");
    assert SeedText(userName, memoryStr) == p + userName + (q + memoryStr + ".");
    ContainsInfix(p, userName, q + memoryStr + ".");
  }

  /** Loading falls back to an empty context and empty `memory_str` without an API
      key, when the call raises, and when there are no results. */
  lemma LoadFallbacks(apiKey: string, fetched: CallOutcome<Option<seq<MemoryRecord>>>)
    requires apiKey == "" || fetched.Raised? || fetched == Returned(None) || fetched == Returned(Some([]))
    ensures LoadMemories(apiKey, fetched) == Loaded([], "", DefaultUser)
  {
  }

  // ---------------------------------------------------------------------------
  // Save
  // ---------------------------------------------------------------------------

  /** The attributes tried for content, in order. */
  const ContentFields: seq<string> := ["content", "text", "message", "text_content"]

  /** The text of one content value; a list becomes the concatenation of its elements. */
  function ContentText(c: Content): CallOutcome<string> {
    match c
    case NoContent => Returned("")
    case TextContent(t) => Returned(t)
    case ListContent(parts) => Returned(Concat(parts))
    case FaultyContent(m) => Raised(m)
  }

  /** The parts joined with no separator. */
  function Concat(parts: seq<string>): string {
    if parts == [] then "" else parts[0] + Concat(parts[1..])
  }

  /** The first of `fields` that the item has with a non-`None` value decides the
      content; without one the content is `""`. */
  function FirstContent(attrs: map<string, Content>, fields: seq<string>): CallOutcome<string> {
    if fields == [] then Returned("")
    else if fields[0] in attrs && attrs[fields[0]] != NoContent then ContentText(attrs[fields[0]])
    else FirstContent(attrs, fields[1..])
  }

  /** The content source `FirstContent` picks is the first present, non-`None` one. */
  lemma {:induction false} FirstContentPicksFirst(attrs: map<string, Content>, fields: seq<string>, i: nat)
    requires i < |fields| && fields[i] in attrs && attrs[fields[i]] != NoContent
    requires forall j :: 0 <= j < i ==> fields[j] !in attrs || attrs[fields[j]] == NoContent
    ensures FirstContent(attrs, fields) == ContentText(attrs[fields[i]])
    decreases i
  {
    if i > 0 {
      FirstContentPicksFirst(attrs, fields[1..], i - 1);
    }
  }

  /** Without any present, non-`None` content field the content is empty. */
  lemma {:induction false} FirstContentNone(attrs: map<string, Content>, fields: seq<string>)
    requires forall j :: 0 <= j < |fields| ==> fields[j] !in attrs || attrs[fields[j]] == NoContent
    ensures FirstContent(attrs, fields) == Returned("")
    decreases |fields|
  {
    if fields != [] {
      FirstContentNone(attrs, fields[1..]);
    }
  }

  /** One entry of the save batch. */
  datatype Message = Message(role: string, content: string)

  predicate IsConversationRole(role: Option<string>) {
    role == Some("user") || role == Some("assistant")
  }

  /** Whether an extracted text is excluded: blank, or holding a non-empty `memory_str`. */
  predicate Excluded(text: string, memoryStr: string) {
    IsBlank(text) || (memoryStr != "" && Contains(text, memoryStr))
  }

  /** What one item contributes to the batch: nothing when its role is not a
      conversation role, when reading its content raised, or when the content is
      excluded; otherwise its role and stripped content. */
  function KeepItem(item: Item, memoryStr: string): seq<Message> {
    if !IsConversationRole(item.role) then []
    else match FirstContent(item.attrs, ContentFields)
      case Raised(_) => []
      case Returned(text) =>
        if Excluded(text, memoryStr) then [] else [Message(item.role.value, Strip(text))]
  }

  /** Every message that enters a batch has a conversation role and stripped,
      non-empty content that does not hold a non-empty `memory_str`. */
  predicate Admissible(m: Message, memoryStr: string) {
    && (m.role == "user" || m.role == "assistant")
    && m.content != []
    && !IsSpace(m.content[0]) && !IsSpace(m.content[|m.content| - 1])
    && (memoryStr != "" ==> !Contains(m.content, memoryStr))
  }

  lemma KeepItemAdmissible(item: Item, memoryStr: string)
    ensures forall m :: m in KeepItem(item, memoryStr) ==> Admissible(m, memoryStr)
  {
    var kept := KeepItem(item, memoryStr);
    if kept != [] {
      var text := FirstContent(item.attrs, ContentFields).value;
      StripEmptyIffBlank(text);
      StripIsTrimmedInfix(text);
      if memoryStr != "" && Contains(Strip(text), memoryStr) {
        ContainsInStripped(text, memoryStr);
      }
    }
  }

  /** The save batch: each item's contribution, in the items' order. */
  function SaveBatch(items: seq<Item>, memoryStr: string): (batch: seq<Message>)
    ensures |batch| <= |items|
    ensures forall m :: m in batch ==> Admissible(m, memoryStr)
    ensures forall i, m :: 0 <= i < |items| && m in KeepItem(items[i], memoryStr) ==> m in batch
  {
    if items == [] then []
    else
      var init := items[..|items| - 1];
      var prev := SaveBatch(init, memoryStr);
      var last := KeepItem(items[|items| - 1], memoryStr);
      KeepItemAdmissible(items[|items| - 1], memoryStr);
      AppendKeepsContributions(items, init, memoryStr, prev, last);
      prev + last
  }

  /** Extending a batch that holds the contributions of all but the last item by the
      last item's contribution gives one holding every item's contribution. */
  lemma AppendKeepsContributions(items: seq<Item>, init: seq<Item>, memoryStr: string, prev: seq<Message>, last: seq<Message>)
    requires items != [] && init == items[..|items| - 1] && last == KeepItem(items[|items| - 1], memoryStr)
    requires forall i, m :: 0 <= i < |init| && m in KeepItem(init[i], memoryStr) ==> m in prev
    ensures forall i, m :: 0 <= i < |items| && m in KeepItem(items[i], memoryStr) ==> m in prev + last
  {
    forall i, m | 0 <= i < |items| && m in KeepItem(items[i], memoryStr)
      ensures m in prev + last
    {
      if i < |items| - 1 {
        assert init[i] == items[i];
      }
    }
  }

  /** The batch of a concatenation is the concatenation of the batches: items are
      judged one by one and the survivors keep their order. */
  lemma {:induction false} SaveBatchConcat(a: seq<Item>, b: seq<Item>, memoryStr: string)
    ensures SaveBatch(a + b, memoryStr) == SaveBatch(a, memoryStr) + SaveBatch(b, memoryStr)
    decreases |b|
  {
    if b != [] {
      var b' := b[..|b| - 1];
      assert (a + b)[..|a + b| - 1] == a + b';
      SaveBatchConcat(a, b', memoryStr);
    } else {
      assert a + b == a;
    }
  }

  /** A message is in the batch exactly when some item contributes it. */
  lemma {:induction false} SaveBatchMembers(items: seq<Item>, memoryStr: string, m: Message)
    ensures m in SaveBatch(items, memoryStr) <==> exists i :: 0 <= i < |items| && m in KeepItem(items[i], memoryStr)
    decreases |items|
  {
    if items != [] {
      var init := items[..|items| - 1];
      SaveBatchMembers(init, memoryStr, m);
      if m in KeepItem(items[|items| - 1], memoryStr) {
        assert exists i :: 0 <= i < |items| && m in KeepItem(items[i], memoryStr);
      }
      if exists i :: 0 <= i < |items| && m in KeepItem(items[i], memoryStr) {
        var i :| 0 <= i < |items| && m in KeepItem(items[i], memoryStr);
        if i < |items| - 1 {
          assert items[i] == init[i];
        }
      }
    }
  }

  /** The `for` loop of `shutdown_hook`, item by item; an item whose processing
      raises is skipped and the loop goes on. */
  method CollectMessages(items: seq<Item>, memoryStr: string) returns (batch: seq<Message>)
    ensures batch == SaveBatch(items, memoryStr)
  {
    batch := [];
    var i := 0;
    while i < |items|
      invariant 0 <= i <= |items|
      invariant batch == SaveBatch(items[..i], memoryStr)
    {
      assert items[..i + 1][..i] == items[..i];
      batch := batch + KeepItem(items[i], memoryStr);
      i := i + 1;
    }
    assert items[..|items|] == items;
  }

  /** The single write to the memory service: the batch, keyed by the user name. */
  datatype AddCall = AddCall(messages: seq<Message>, userId: string)

  /** `shutdown_hook`: the write it issues, if any. Whether the write then succeeds
      or raises changes nothing, since a failure is swallowed. */
  function ShutdownHook(items: seq<Item>, memoryStr: string, userName: string): Option<AddCall> {
    var batch := SaveBatch(items, memoryStr);
    if batch == [] then None else Some(AddCall(batch, userName))
  }

  /** At most one write, keyed by the user name, carrying the whole batch, and issued
      exactly when the batch is non-empty. */
  lemma ShutdownWritesOnce(items: seq<Item>, memoryStr: string, userName: string)
    ensures var w := ShutdownHook(items, memoryStr, userName);
      && (w.Some? <==> SaveBatch(items, memoryStr) != [])
      && (w.Some? ==> w.value.userId == userName && w.value.messages == SaveBatch(items, memoryStr)
                      && 0 < |w.value.messages| <= |items|)
  {
  }

  /** The seed turn built by loading is never saved back: whatever the conversation
      appends after the loaded context, the batch is that of the appended items alone. */
  lemma SeedNeverSavedBack(apiKey: string, fetched: CallOutcome<Option<seq<MemoryRecord>>>, later: seq<Item>)
    ensures var l := LoadMemories(apiKey, fetched);
      SaveBatch(l.context + later, l.memoryStr) == SaveBatch(later, l.memoryStr)
  {
    var l := LoadMemories(apiKey, fetched);
    LoadSeedShape(apiKey, fetched);
    SaveBatchConcat(l.context, later, l.memoryStr);
    if l.context != [] {
      var seed := SeedItem(l.userName, l.memoryStr);
      var text := SeedText(l.userName, l.memoryStr);
      assert FirstContent(seed.attrs, ContentFields) == Returned(Concat([text])) by {
        FirstContentPicksFirst(seed.attrs, ContentFields, 0);
      }
      assert Concat([text]) == text;
      assert KeepItem(seed, l.memoryStr) == [];
      assert SaveBatch(l.context, l.memoryStr) == SaveBatch([], l.memoryStr) + KeepItem(seed, l.memoryStr);
    } else {
      assert l.context + later == later;
    }
  }

  /** An empty `memory_str` excludes nothing: each user or assistant item whose
      content reads without error and is not blank contributes its stripped content. */
  lemma EmptyMemoryExcludesNothing(item: Item)
    requires IsConversationRole(item.role)
    requires FirstContent(item.attrs, ContentFields).Returned?
    requires !IsBlank(FirstContent(item.attrs, ContentFields).value)
    ensures KeepItem(item, "") == [Message(item.role.value, Strip(FirstContent(item.attrs, ContentFields).value))]
  {
  }

  /** Roles other than user and assistant never reach the batch. */
  lemma OtherRolesSkipped(item: Item, memoryStr: string)
    requires !IsConversationRole(item.role)
    ensures KeepItem(item, memoryStr) == []
  {
  }

  /** A context holding only what loading put there is never written back. */
  lemma SeedOnlyContextWritesNothing(apiKey: string, fetched: CallOutcome<Option<seq<MemoryRecord>>>)
    ensures var l := LoadMemories(apiKey, fetched);
      ShutdownHook(l.context, l.memoryStr, l.userName) == None
  {
    var l := LoadMemories(apiKey, fetched);
    SeedNeverSavedBack(apiKey, fetched, []);
    assert l.context + [] == l.context;
  }

  /** Every user or assistant turn whose content reads without error to a text that
      is not excluded is kept: it contributes its role and stripped text, whatever
      attribute and whatever kind of value held the content. */
  lemma KeepReadableTurn(item: Item, memoryStr: string, text: string)
    requires IsConversationRole(item.role)
    requires FirstContent(item.attrs, ContentFields) == Returned(text)
    requires !Excluded(text, memoryStr)
    ensures KeepItem(item, memoryStr) == [Message(item.role.value, Strip(text))]
  {
  }

  /** A plain-text turn with a conversation role is kept, stripped, unless excluded. */
  lemma KeepPlainTurn(role: string, text: string, memoryStr: string)
    requires role == "user" || role == "assistant"
    requires !Excluded(text, memoryStr)
    ensures KeepItem(Item(Some(role), map["content" := TextContent(text)]), memoryStr) == [Message(role, Strip(text))]
  {
    var item := Item(Some(role), map["content" := TextContent(text)]);
    FirstContentPicksFirst(item.attrs, ContentFields, 0);
  }

  /** A turn stored the way the conversation engine stores it, its `content` a list of
      parts, is kept with the parts joined and stripped, unless the joined text is
      excluded. */
  lemma KeepListTurn(role: string, parts: seq<string>, memoryStr: string)
    requires role == "user" || role == "assistant"
    requires !Excluded(Concat(parts), memoryStr)
    ensures KeepItem(Item(Some(role), map["content" := ListContent(parts)]), memoryStr)
      == [Message(role, Strip(Concat(parts)))]
  {
    var item := Item(Some(role), map["content" := ListContent(parts)]);
    FirstContentPicksFirst(item.attrs, ContentFields, 0);
  }

  /** No admissible turn is lost: each readable, non-excluded user or assistant turn of
      the conversation has its message in the batch. */
  lemma SaveBatchKeepsEveryTurn(items: seq<Item>, memoryStr: string, i: nat, text: string)
    requires i < |items| && IsConversationRole(items[i].role)
    requires FirstContent(items[i].attrs, ContentFields) == Returned(text)
    requires !Excluded(text, memoryStr)
    ensures Message(items[i].role.value, Strip(text)) in SaveBatch(items, memoryStr)
  {
    KeepReadableTurn(items[i], memoryStr, text);
  }

  /** The batch of two items is what each contributes, in order. */
  lemma SaveBatchPair(x: Item, y: Item, memoryStr: string)
    ensures SaveBatch([x, y], memoryStr) == KeepItem(x, memoryStr) + KeepItem(y, memoryStr)
  {
    assert [x, y][..1] == [x];
    assert [x][..0] == [];
  }

  /** A user turn and an assistant turn that both read to non-excluded texts are
      saved as two messages in order. */
  lemma TwoTurnsBatch(user: Item, assistant: Item, memoryStr: string, said: string, replied: string)
    requires user.role == Some("user") && FirstContent(user.attrs, ContentFields) == Returned(said)
    requires assistant.role == Some("assistant") && FirstContent(assistant.attrs, ContentFields) == Returned(replied)
    requires !Excluded(said, memoryStr) && !Excluded(replied, memoryStr)
    ensures SaveBatch([user, assistant], memoryStr) == [Message("user", Strip(said)), Message("assistant", Strip(replied))]
  {
    KeepReadableTurn(user, memoryStr, said);
    KeepReadableTurn(assistant, memoryStr, replied);
    SaveBatchPair(user, assistant, memoryStr);
  }

  /** After loading, one new user turn and one new assistant turn, each with content
      that reads to a text that is not blank and does not hold `memory_str`, give
      exactly one write of two messages, in order, for the loaded user. */
  lemma TwoNewTurnsOneWrite(apiKey: string, fetched: CallOutcome<Option<seq<MemoryRecord>>>,
                            user: Item, assistant: Item, said: string, replied: string)
    requires user.role == Some("user") && FirstContent(user.attrs, ContentFields) == Returned(said)
    requires assistant.role == Some("assistant") && FirstContent(assistant.attrs, ContentFields) == Returned(replied)
    requires !Excluded(said, LoadMemories(apiKey, fetched).memoryStr)
    requires !Excluded(replied, LoadMemories(apiKey, fetched).memoryStr)
    ensures var l := LoadMemories(apiKey, fetched);
      ShutdownHook(l.context + [user, assistant], l.memoryStr, l.userName)
        == Some(AddCall([Message("user", Strip(said)), Message("assistant", Strip(replied))], l.userName))
  {
    var l := LoadMemories(apiKey, fetched);
    SeedNeverSavedBack(apiKey, fetched, [user, assistant]);
    TwoTurnsBatch(user, assistant, l.memoryStr, said, replied);
  }

  /** The same for turns as the conversation engine stores them, each `content` a
      one-element list. */
  lemma TwoEngineTurnsOneWrite(apiKey: string, fetched: CallOutcome<Option<seq<MemoryRecord>>>, said: string, replied: string)
    requires !Excluded(said, LoadMemories(apiKey, fetched).memoryStr)
    requires !Excluded(replied, LoadMemories(apiKey, fetched).memoryStr)
    ensures var l := LoadMemories(apiKey, fetched);
      var user := Item(Some("user"), map["content" := ListContent([said])]);
      var assistant := Item(Some("assistant"), map["content" := ListContent([replied])]);
      ShutdownHook(l.context + [user, assistant], l.memoryStr, l.userName)
        == Some(AddCall([Message("user", Strip(said)), Message("assistant", Strip(replied))], l.userName))
  {
    var user := Item(Some("user"), map["content" := ListContent([said])]);
    var assistant := Item(Some("assistant"), map["content" := ListContent([replied])]);
    assert [said][1..] == [] && [replied][1..] == [];
    assert Concat([said]) == said && Concat([replied]) == replied;
    FirstContentPicksFirst(user.attrs, ContentFields, 0);
    FirstContentPicksFirst(assistant.attrs, ContentFields, 0);
    TwoNewTurnsOneWrite(apiKey, fetched, user, assistant, said, replied);
  }
}
