/** How a remote MCP tool is exposed locally (backend/mcp_handler.py): the local
    name, the parameter list, the optional-argument signature, and the assembly of
    the registry from the discovered tools (`create_mcp_tool_wrapper` minus its
    inner `wrapper`, and `load_and_convert_mcp_tools`). */
module ToolAdapter {
  import opened Outcomes
  import opened Text

  // ---------------------------------------------------------------------------
  // Local names
  // ---------------------------------------------------------------------------

  /** The four characters the local name replaces with `_`. */
  predicate IsSeparator(c: char) {
    c == '-' || c == ' ' || c == '.' || c == '/'
  }

  /** Each hyphen, space, dot and slash turned into an underscore. */
  function ReplaceSeparators(s: string): (r: string)
    ensures |r| == |s|
    ensures forall i :: 0 <= i < |s| ==> r[i] == (if IsSeparator(s[i]) then '_' else s[i])
  {
    if s == [] then [] else [if IsSeparator(s[0]) then '_' else s[0]] + ReplaceSeparators(s[1..])
  }

  /** `safe_name`: separators replaced, then lower-cased. */
  function SafeName(name: string): string {
    Lower(ReplaceSeparators(name))
  }

  /** The local name: the sanitised name, an underscore, then the tool's position in
      decimal. */
  function LocalName(name: string, index: nat): string {
    SafeName(name) + "_" + NatToString(index)
  }

  /** The shape of a local name: it is the original name character by character,
      with each separator turned into `_` and each ASCII capital lower-cased (every
      other character kept), followed by `_` and the decimal index; no separator and
      no capital survives. */
  lemma LocalNameShape(name: string, index: nat)
    ensures var r := LocalName(name, index);
      && |r| == |name| + 1 + |NatToString(index)|
      && (forall i :: 0 <= i < |name| && IsSeparator(name[i]) ==> r[i] == '_')
      && (forall i :: 0 <= i < |name| && IsUpperAscii(name[i]) ==> r[i] as int == name[i] as int + 32)
      && (forall i :: 0 <= i < |name| && !IsSeparator(name[i]) && !IsUpperAscii(name[i]) ==> r[i] == name[i])
      && r[|name|] == '_'
      && r[|name| + 1..] == NatToString(index)
      && (forall i :: 0 <= i < |r| ==> !IsSeparator(r[i]) && !IsUpperAscii(r[i]))
  {
    var r := LocalName(name, index);
    var digits := NatToString(index);
    forall i | |name| < i < |r|
      ensures !IsSeparator(r[i]) && !IsUpperAscii(r[i])
    {
      assert r[i] == digits[i - |name| - 1];
    }
  }

  /** Splits a string at its last `_` into the text before it and the text after it. */
  function SplitAtLastUnderscore(s: string): Option<(string, string)>
    decreases |s|
  {
    if s == [] then None
    else if s[|s| - 1] == '_' then Some((s[..|s| - 1], ""))
    else match SplitAtLastUnderscore(s[..|s| - 1])
      case None => None
      case Some(p) => Some((p.0, p.1 + [s[|s| - 1]]))
  }

  /** Reads the positional index back out of a local name: the number written after
      its last `_`. */
  function ToolIndex(localName: string): Option<nat> {
    match SplitAtLastUnderscore(localName)
    case None => None
    case Some(p) => ParseNat(p.1)
  }

  lemma {:induction false} SplitAfterUnderscore(a: string, d: string)
    requires forall i :: 0 <= i < |d| ==> d[i] != '_'
    ensures SplitAtLastUnderscore(a + "_" + d) == Some((a, d))
    decreases |d|
  {
    var s := a + "_" + d;
    if d == [] {
      assert s[..|s| - 1] == a;
    } else {
      var d' := d[..|d| - 1];
      assert s[..|s| - 1] == a + "_" + d';
      SplitAfterUnderscore(a, d');
      assert d' + [d[|d| - 1]] == d;
    }
  }

  /** The index can always be recovered from the local name it was appended to. */
  lemma LocalNameIndexRoundTrip(name: string, index: nat)
    ensures ToolIndex(LocalName(name, index)) == Some(index)
    ensures SplitAtLastUnderscore(LocalName(name, index)) == Some((SafeName(name), NatToString(index)))
  {
    SplitAfterUnderscore(SafeName(name), NatToString(index));
    ParseNatToString(index);
  }

  /** Tools at distinct positions get distinct local names, whatever their original
      names (even identical ones reported by two servers). */
  lemma LocalNamesDistinct(a: string, i: nat, b: string, j: nat)
    requires i != j
    ensures LocalName(a, i) != LocalName(b, j)
  {
    LocalNameIndexRoundTrip(a, i);
    LocalNameIndexRoundTrip(b, j);
  }

  // ---------------------------------------------------------------------------
  // Parameter lists
  // ---------------------------------------------------------------------------

  /** The four parameter types a wrapper can expose. */
  datatype PrimType = StrType | IntType | BoolType | FloatType

  /** A declared field's annotation: the classes `int`, `bool`, `float`, `str`, or any
      other type expression (`Optional[int]`, `list`, ...). */
  datatype Annotation = IntClass | BoolClass | FloatClass | StrClass | OtherAnnotation(repr: string)

  /** One field of a declared argument schema; `annotation` is `None` when the field
      carries no `annotation` attribute. */
  datatype Field = Field(name: string, annotation: Option<Annotation>)

  /** A tool as reported by an MCP server. `description` is `""` when the server gave
      none (the source treats a missing and an empty description alike); `schema` is
      `None` when the tool has no argument schema exposing `__fields__`. */
  datatype RemoteTool = RemoteTool(name: string, description: string, schema: Option<seq<Field>>)

  datatype Param = Param(name: string, ty: PrimType)

  /** The type a declared field is exposed with: `int`, `bool` and `float` are kept and
      everything else becomes `str`. */
  function FieldType(annotation: Option<Annotation>): PrimType {
    match annotation
    case Some(IntClass) => IntType
    case Some(BoolClass) => BoolType
    case Some(FloatClass) => FloatType
    case _ => StrType
  }

  /** Parameters copied from a declared schema, in declaration order. */
  function DeclaredParams(fields: seq<Field>): seq<Param> {
    if fields == [] then []
    else [Param(fields[0].name, FieldType(fields[0].annotation))] + DeclaredParams(fields[1..])
  }

  /** A declared schema yields one parameter per field, with the field's name, in
      the same order; `int`, `bool` and `float` annotations keep their type and every
      other field (unannotated, `str`, or any other type) is exposed as `str`. */
  lemma {:induction false} DeclaredParamsFollowSchema(fields: seq<Field>)
    ensures var ps := DeclaredParams(fields);
      && |ps| == |fields|
      && (forall i :: 0 <= i < |fields| ==> ps[i].name == fields[i].name)
      && (forall i :: 0 <= i < |fields| ==>
            (ps[i].ty == IntType <==> fields[i].annotation == Some(IntClass))
            && (ps[i].ty == BoolType <==> fields[i].annotation == Some(BoolClass))
            && (ps[i].ty == FloatType <==> fields[i].annotation == Some(FloatClass)))
  {
    if fields != [] {
      DeclaredParamsFollowSchema(fields[1..]);
      var ps := DeclaredParams(fields);
      assert forall i :: 1 <= i < |fields| ==> ps[i] == DeclaredParams(fields[1..])[i - 1];
    }
  }

  /** The name-based inference rules, listed in priority order. */
  datatype Rule = SearchRule | SendMailRule | CreateEventRule | UpdateEventRule | DeleteEventRule | FallbackRule

  /** A rule's position in the priority order (0 is tried first). */
  function Rank(rule: Rule): nat {
    match rule
    case SearchRule => 0
    case SendMailRule => 1
    case CreateEventRule => 2
    case UpdateEventRule => 3
    case DeleteEventRule => 4
    case FallbackRule => 5
  }

  /** Whether a rule's condition holds of a lower-cased tool name, each rule read on
      its own. */
  predicate Applies(rule: Rule, lname: string) {
    match rule
    case SearchRule => Contains(lname, "search") || Contains(lname, "crawl")
    case SendMailRule => Contains(lname, "send") && (Contains(lname, "gmail") || Contains(lname, "email"))
    case CreateEventRule => Contains(lname, "create_event") && Contains(lname, "calendar")
    case UpdateEventRule => Contains(lname, "update_event") && Contains(lname, "calendar")
    case DeleteEventRule => Contains(lname, "delete_event") && Contains(lname, "calendar")
    case FallbackRule => true
  }

  /** The `if`/`elif` chain of the source, on the lower-cased name. */
  function SelectRule(lname: string): Rule {
    if Contains(lname, "search") || Contains(lname, "crawl") then SearchRule
    else if Contains(lname, "send") && (Contains(lname, "gmail") || Contains(lname, "email")) then SendMailRule
    else if Contains(lname, "create_event") && Contains(lname, "calendar") then CreateEventRule
    else if Contains(lname, "update_event") && Contains(lname, "calendar") then UpdateEventRule
    else if Contains(lname, "delete_event") && Contains(lname, "calendar") then DeleteEventRule
    else FallbackRule
  }

  /** The selected rule applies, and no rule ranked before it does. */
  lemma SelectedRuleApplies(lname: string)
    ensures Applies(SelectRule(lname), lname)
    ensures forall earlier: Rule :: Rank(earlier) < Rank(SelectRule(lname)) ==> !Applies(earlier, lname)
  {
  }

  /** First match wins: the selected rule is the one whose condition holds and that
      no applicable rule precedes — and no other rule is. */
  lemma SelectRuleIsFirstApplicable(lname: string, rule: Rule)
    ensures SelectRule(lname) == rule <==>
      (Applies(rule, lname) && forall earlier: Rule :: Rank(earlier) < Rank(rule) ==> !Applies(earlier, lname))
  {
    SelectedRuleApplies(lname);
    var s := SelectRule(lname);
    if Applies(rule, lname) && forall earlier: Rule :: Rank(earlier) < Rank(rule) ==> !Applies(earlier, lname) {
      assert Rank(s) >= Rank(rule);
      assert Rank(rule) >= Rank(s);
    }
  }

  /** The parameter list each rule produces; every inferred parameter is a string. */
  function RuleParams(rule: Rule): seq<Param> {
    match rule
    case SearchRule => [Param("query", StrType)]
    case SendMailRule => [Param("to", StrType), Param("subject", StrType), Param("body", StrType)]
    case CreateEventRule => [Param("summary", StrType), Param("start_time", StrType), Param("end_time", StrType)]
    case UpdateEventRule =>
      [Param("id", StrType), Param("summary", StrType), Param("start_time", StrType), Param("end_time", StrType)]
    case DeleteEventRule => [Param("id", StrType)]
    case FallbackRule => [Param("input", StrType)]
  }

  /** Parameters inferred from a tool name without a schema. */
  function InferParams(name: string): seq<Param> {
    RuleParams(SelectRule(Lower(name)))
  }

  /** An inferred parameter list is never empty, holds only strings, and has no
      parameter name twice. */
  lemma InferredParamsWellFormed(name: string)
    ensures var ps := InferParams(name);
      && |ps| > 0
      && (forall i :: 0 <= i < |ps| ==> ps[i].ty == StrType)
      && (forall i, j :: 0 <= i < j < |ps| ==> ps[i].name != ps[j].name)
  {
  }

  /** The parameter list of a tool: declared if it has a schema, inferred otherwise. */
  function ToolParams(tool: RemoteTool): seq<Param> {
    match tool.schema
    case Some(fields) => DeclaredParams(fields)
    case None => InferParams(tool.name)
  }

  /** The one way a parameter list can be empty: a declared schema without fields. */
  lemma EmptyParamsOnlyFromEmptySchema(tool: RemoteTool)
    ensures ToolParams(tool) == [] <==> tool.schema == Some([])
  {
    match tool.schema {
      case Some(fields) =>
        DeclaredParamsFollowSchema(fields);
      case None =>
        InferredParamsWellFormed(tool.name);
    }
  }

  // ---------------------------------------------------------------------------
  // Wrappers
  // ---------------------------------------------------------------------------

  /** One exposed parameter: a keyword-only parameter of type `Optional[ty]` whose
      default is `None` when `optional` holds. */
  datatype SigParam = SigParam(name: string, ty: PrimType, optional: bool)

  /** A locally callable tool bound to one remote tool on one server. */
  datatype ToolWrapper = ToolWrapper(
    localName: string,
    description: string,
    signature: seq<SigParam>,
    serverName: string,
    originalName: string)

  /** The exposed signature: every parameter becomes optional with default `None`. */
  function Signature(params: seq<Param>): seq<SigParam> {
    if params == [] then []
    else [SigParam(params[0].name, params[0].ty, true)] + Signature(params[1..])
  }

  /** The tool's own description when it is non-empty, otherwise "Execute " followed
      by the tool's name. */
  function Description(tool: RemoteTool): string {
    if tool.description == "" then "Execute " + tool.name else tool.description
  }

  /** `create_mcp_tool_wrapper(mcp_tool, tool_index, server_name)`, without the
      callable itself (see `ToolCall.InvokeTool`). */
  function CreateWrapper(tool: RemoteTool, index: nat, server: string): ToolWrapper {
    ToolWrapper(LocalName(tool.name, index), Description(tool), Signature(ToolParams(tool)), server, tool.name)
  }

  /** Every exposed parameter is optional, and the signature lists the tool's
      parameters with their names and types in order. */
  lemma {:induction false} SignatureAllOptional(params: seq<Param>)
    ensures var sig := Signature(params);
      && |sig| == |params|
      && (forall i :: 0 <= i < |sig| ==>
            sig[i].optional && sig[i].name == params[i].name && sig[i].ty == params[i].ty)
  {
    if params != [] {
      SignatureAllOptional(params[1..]);
      var sig := Signature(params);
      assert forall i :: 1 <= i < |sig| ==> sig[i] == Signature(params[1..])[i - 1];
    }
  }

  // ---------------------------------------------------------------------------
  // The registry
  // ---------------------------------------------------------------------------

  /** The one server the loader connects to. */
  const ComposioServer: string := "composio"

  /** The index recorded in a wrapper's local name, or -1 if it has none. */
  function WrapperIndex(w: ToolWrapper): int {
    match ToolIndex(w.localName)
    case Some(i) => i
    case None => -1
  }

  /** `w` is the wrapper built for the tool at the position its name records, and that
      position's construction did not fail. */
  predicate BuiltAt(tools: seq<RemoteTool>, rejected: set<nat>, w: ToolWrapper) {
    var i := WrapperIndex(w);
    0 <= i < |tools| && i !in rejected && w == CreateWrapper(tools[i], i, ComposioServer)
  }

  /** The `enumerate` loop from position `start` on: the tool at position `i` gets
      index `i`, and a position in `rejected` (its wrapper construction raised)
      contributes nothing but still uses up its index. */
  function ConvertFrom(tools: seq<RemoteTool>, rejected: set<nat>, start: nat): (r: seq<ToolWrapper>)
    requires start <= |tools|
    ensures forall k :: 0 <= k < |r| ==> BuiltAt(tools, rejected, r[k]) && start <= WrapperIndex(r[k])
    ensures forall i :: start <= i < |tools| && i !in rejected ==> CreateWrapper(tools[i], i, ComposioServer) in r
    ensures forall a, b :: 0 <= a < b < |r| ==> WrapperIndex(r[a]) < WrapperIndex(r[b])
    decreases |tools| - start
  {
    if start == |tools| then []
    else
      var rest := ConvertFrom(tools, rejected, start + 1);
      if start in rejected then rest
      else
        ConvertStep(tools, rejected, start, rest);
        [CreateWrapper(tools[start], start, ComposioServer)] + rest
  }

  /** Putting the wrapper for position `start` in front of the wrappers of the later
      positions keeps the three properties of `ConvertFrom`. */
  lemma ConvertStep(tools: seq<RemoteTool>, rejected: set<nat>, start: nat, rest: seq<ToolWrapper>)
    requires start < |tools| && start !in rejected
    requires forall k :: 0 <= k < |rest| ==> BuiltAt(tools, rejected, rest[k]) && start + 1 <= WrapperIndex(rest[k])
    requires forall i :: start + 1 <= i < |tools| && i !in rejected ==> CreateWrapper(tools[i], i, ComposioServer) in rest
    requires forall a, b :: 0 <= a < b < |rest| ==> WrapperIndex(rest[a]) < WrapperIndex(rest[b])
    ensures var r := [CreateWrapper(tools[start], start, ComposioServer)] + rest;
      && (forall k :: 0 <= k < |r| ==> BuiltAt(tools, rejected, r[k]) && start <= WrapperIndex(r[k]))
      && (forall i :: start <= i < |tools| && i !in rejected ==> CreateWrapper(tools[i], i, ComposioServer) in r)
      && (forall a, b :: 0 <= a < b < |r| ==> WrapperIndex(r[a]) < WrapperIndex(r[b]))
  {
    var w := CreateWrapper(tools[start], start, ComposioServer);
    FrontWrapper(tools, rejected, start);
    var ok := x => BuiltAt(tools, rejected, x);
    ConsKeeps(w, rest, start, ok, WrapperIndex);
    forall i | start <= i < |tools| && i !in rejected
      ensures CreateWrapper(tools[i], i, ComposioServer) in [w] + rest
    {
      if i > start {
        assert CreateWrapper(tools[i], i, ComposioServer) in rest;
      }
    }
  }

  /** The wrapper built for position `start` records `start` and is built there. */
  lemma FrontWrapper(tools: seq<RemoteTool>, rejected: set<nat>, start: nat)
    requires start < |tools| && start !in rejected
    ensures WrapperIndex(CreateWrapper(tools[start], start, ComposioServer)) == start
    ensures BuiltAt(tools, rejected, CreateWrapper(tools[start], start, ComposioServer))
  {
    LocalNameIndexRoundTrip(tools[start].name, start);
  }

  /** Putting an element that satisfies `ok` with key `start` in front of a list whose
      keys are above `start` and strictly increasing keeps both properties. */
  lemma ConsKeeps<T>(w: T, rest: seq<T>, start: int, ok: T -> bool, key: T -> int)
    requires ok(w) && key(w) == start
    requires forall k :: 0 <= k < |rest| ==> ok(rest[k]) && start + 1 <= key(rest[k])
    requires forall a, b :: 0 <= a < b < |rest| ==> key(rest[a]) < key(rest[b])
    ensures var r := [w] + rest;
      && (forall k :: 0 <= k < |r| ==> ok(r[k]) && start <= key(r[k]))
      && (forall a, b :: 0 <= a < b < |r| ==> key(r[a]) < key(r[b]))
  {
    var r := [w] + rest;
    forall k | 0 <= k < |r|
      ensures ok(r[k]) && start <= key(r[k])
    {
      if k > 0 {
        assert r[k] == rest[k - 1];
      }
    }
    forall a, b | 0 <= a < b < |r|
      ensures key(r[a]) < key(r[b])
    {
      assert r[b] == rest[b - 1];
      if a > 0 {
        assert r[a] == rest[a - 1];
      }
    }
  }

  /** `load_and_convert_mcp_tools`: no tools when the server URL is unset or discovery
      raised; otherwise one wrapper per discovered tool whose construction succeeded. */
  function LoadAndConvert(composioUrl: string, discovery: CallOutcome<seq<RemoteTool>>, rejected: set<nat>)
    : seq<ToolWrapper>
  {
    if composioUrl == "" then []
    else match discovery
      case Raised(_) => []
      case Returned(tools) => ConvertFrom(tools, rejected, 0)
  }

  /** The loaded registry: empty when loading failed; otherwise every wrapper is the one
      built for the discovered tool at the position its local name records, every tool
      whose construction succeeded is present, wrappers follow discovery order, and no
      two wrappers share a local name. */
  lemma RegistryWellFormed(composioUrl: string, discovery: CallOutcome<seq<RemoteTool>>, rejected: set<nat>)
    ensures var r := LoadAndConvert(composioUrl, discovery, rejected);
      && (composioUrl == "" || discovery.Raised? ==> r == [])
      && (composioUrl != "" && discovery.Returned? ==>
            var tools := discovery.value;
            && (forall k :: 0 <= k < |r| ==> BuiltAt(tools, rejected, r[k]))
            && (forall i :: 0 <= i < |tools| && i !in rejected ==> CreateWrapper(tools[i], i, ComposioServer) in r)
            && (forall a, b :: 0 <= a < b < |r| ==> WrapperIndex(r[a]) < WrapperIndex(r[b])))
      && (forall a, b :: 0 <= a < b < |r| ==> r[a].localName != r[b].localName)
  {
  }
}
