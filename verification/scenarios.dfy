/** Worked examples of the tool adapter on whole families of tool names, each an
    instance of the general lemmas in `ToolAdapter` and `ToolCall`. */
module Scenarios {
  import opened Outcomes
  import opened Text
  import opened ToolAdapter
  import opened ToolCall
  import opened IsoTime

  /** A Gmail send tool without a schema is exposed with `to`, `subject` and `body`,
      not the generic `input` — unless its name also mentions searching or crawling,
      which takes priority. */
  lemma GmailSendParams(name: string)
    requires Contains(Lower(name), "send") && Contains(Lower(name), "gmail")
    ensures InferParams(name) ==
      if Contains(Lower(name), "search") || Contains(Lower(name), "crawl") then [Param("query", StrType)]
      else [Param("to", StrType), Param("subject", StrType), Param("body", StrType)]
  {
    SelectedRuleApplies(Lower(name));
  }

  /** A map with one key is that key's singleton map. */
  lemma SingleKey(r: Args, k: string)
    requires |r| == 1 && k in r
    ensures r == map[k := r[k]]
  {
    var others := r.Keys - {k};
    assert r.Keys == others + {k};
    assert |others| == 0;
    assert others == {};
  }

  /** A one-argument call whose argument is renamed by an active rule reaches the
      remote tool with the argument under its new name and nothing else. */
  lemma RemapSingle(lname: string, rule: Rename, v: Value)
    requires rule in ActiveRenames(lname)
    ensures Remap(lname, map[rule.src := v]) == map[rule.dst := v]
  {
    var m := map[rule.src := v];
    RemapMovesValue(lname, m, rule);
    RemapKeepsCount(lname, m);
    ActiveRenamesIndependent(lname);
    var i :| 0 <= i < |ActiveRenames(lname)| && ActiveRenames(lname)[i] == rule;
    assert rule.dst !in m;
    SingleKey(Remap(lname, m), rule.dst);
  }

  /** A search or crawl tool called with only `input` is invoked upstream with
      `query`, whatever the converter: no time key is present to convert. */
  lemma SearchInputBecomesQuery(name: string, q: string, toUtc: string -> Conversion)
    requires Contains(Lower(name), "search") || Contains(Lower(name), "crawl")
    ensures PrepareArgs(name, map["input" := Str(q)], toUtc) == Returned(map["query" := Str(q)])
  {
    var lname := Lower(name);
    var args := map["input" := Str(q)];
    assert DropNulls(args) == args;
    assert NormalizeTimes(lname, args, toUtc) == Returned(args);
    assert Rename("input", "query") == ActiveRenames(lname)[0];
    RemapSingle(lname, Rename("input", "query"), Str(q));
  }

  /** A `None` argument is dropped before anything else: a call whose only argument
      is `None` reaches the remote tool with no arguments. */
  lemma NoneOnlyCallSendsNothing(name: string, key: string, toUtc: string -> Conversion)
    ensures PrepareArgs(name, map[key := Null], toUtc) == Returned(map[])
  {
    var lname := Lower(name);
    assert DropNulls(map[key := Null]) == map[];
    assert NormalizeTimes(lname, map[], toUtc) == Returned(map[]);
    RemapKeepsCount(lname, map[]);
  }

  /** On a calendar tool, a `start_time` the converter turns into UTC text is replaced
      by that text. */
  lemma CalendarNormalize(lname: string, local: string, utc: string, toUtc: string -> Conversion)
    requires Contains(lname, "calendar") && toUtc(local) == Converted(utc)
    ensures NormalizeTimes(lname, map["start_time" := Str(local)], toUtc)
      == Returned(map["start_time" := Str(utc)])
  {
    var args := map["start_time" := Str(local)];
    var converted := map["start_time" := Str(utc)];
    assert args["start_time" := Str(utc)] == converted;
    assert ConvertKey(args, TimeKeys[0], toUtc) == Returned(converted);
    assert ConvertKey(converted, TimeKeys[1], toUtc) == Returned(converted);
  }

  /** On any calendar tool, a `start_time` is first converted and then renamed: the
      remote tool receives the converter's UTC text as `start_datetime`. */
  lemma CalendarStartRenamed(name: string, local: string, utc: string, toUtc: string -> Conversion)
    requires Contains(Lower(name), "calendar") && toUtc(local) == Converted(utc)
    ensures PrepareArgs(name, map["start_time" := Str(local)], toUtc)
      == Returned(map["start_datetime" := Str(utc)])
  {
    var lname := Lower(name);
    var args := map["start_time" := Str(local)];
    assert DropNulls(args) == args;
    CalendarNormalize(lname, local, utc, toUtc);
    var rule := Rename("start_time", "start_datetime");
    ActiveRenamesSelect(lname);
    assert rule in ActiveRenames(lname) by {
      var pre := if Contains(lname, "search") || Contains(lname, "crawl") then [Rename("input", "query")] else [];
      assert ActiveRenames(lname)[|pre|] == rule;
    }
    RemapSingle(lname, rule, Str(utc));
  }

  /** An event created on any calendar tool for 10:00 India Standard Time reaches the
      calendar service as `start_datetime` 04:30 UTC. */
  lemma CalendarStartBecomesUtc(name: string, local: string)
    requires Contains(Lower(name), "calendar")
    requires local == "2024-03-01T10:00:00+05:30"
    ensures PrepareArgs(name, map["start_time" := Str(local)], IsoToUtc)
      == Returned(map["start_datetime" := Str("2024-03-01T04:30:00Z")])
  {
    IndiaMorningToUtc(local);
    CalendarStartRenamed(name, local, "2024-03-01T04:30:00Z", IsoToUtc);
  }
}
