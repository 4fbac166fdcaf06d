// Compilation of editable condition documents into conditions (abac/document.go):
// the depth preflight, the structural build and the assembly of an evaluator.
// Parsing of instants, addresses and prefixes is a parameter.
module ConditionDocuments {
  import opened Ordering
  import opened Attributes
  import opened Decisions
  import opened Conditions
  import opened ConditionValidation
  import Abac

  datatype FloatLiteral = Finite(amount: real) | NotFinite

  datatype ValueDocument = ValueDocument(
    kind: string, text: string, flag: bool, number: int, float: FloatLiteral,
    time: string, address: string, strings: seq<string>)

  datatype ConditionDocument = ConditionDocument(
    operator: string, source: string, attribute: string, value: Option<ValueDocument>, values: seq<ValueDocument>,
    conditions: seq<ConditionDocument>, condition: Option<ConditionDocument>, text: string, prefix: string)

  /** Library parsers: RFC 3339 instants, addresses (unmapped) and prefixes (masked). */
  datatype Parsers = Parsers(
    instant: string -> Option<int>, address: string -> Option<string>, prefix: string -> Option<Prefix>)

  datatype DocumentError = InvalidDocument | InvalidFloat

  // ---- Literals and references ----

  function BuildValue(p: Parsers, d: ValueDocument): Result<Value, DocumentError> {
    match d.kind
    case "null" => Ok(Null)
    case "string" => Ok(Text(d.text))
    case "bool" => Ok(Boolean(d.flag))
    case "int" => Ok(Integer(d.number))
    case "float" => if d.float.Finite? then Ok(Float(d.float.amount)) else Err(InvalidFloat)
    case "time" => var t := p.instant(d.time); if t.Some? then Ok(Instant(t.value)) else Err(InvalidDocument)
    case "ip" => var a := p.address(d.address); if a.Some? then Ok(Address(a.value)) else Err(InvalidDocument)
    case "string_set" => Ok(Strings(SetOf(d.strings)))
    case _ => Err(InvalidDocument)
  }

  /** The value each kind of literal denotes, and the kinds that denote none. */
  lemma LiteralMeans(p: Parsers, d: ValueDocument)
    ensures d.kind == "null" ==> BuildValue(p, d) == Ok(Null)
    ensures d.kind == "string" ==> BuildValue(p, d) == Ok(Text(d.text))
    ensures d.kind == "bool" ==> BuildValue(p, d) == Ok(Boolean(d.flag))
    ensures d.kind == "int" ==> BuildValue(p, d) == Ok(Integer(d.number))
    ensures d.kind == "float" && d.float.Finite? ==> BuildValue(p, d) == Ok(Float(d.float.amount))
    ensures d.kind == "float" && d.float.NotFinite? ==> BuildValue(p, d) == Err(InvalidFloat)
    ensures d.kind == "time" ==>
            BuildValue(p, d) == match p.instant(d.time) case Some(t) => Ok(Instant(t)) case None => Err(InvalidDocument)
    ensures d.kind == "ip" ==>
            BuildValue(p, d) ==
            match p.address(d.address) case Some(a) => Ok(Address(a)) case None => Err(InvalidDocument)
    ensures d.kind == "string_set" ==>
            BuildValue(p, d).Ok? && BuildValue(p, d).value.Strings? &&
            forall x :: x in BuildValue(p, d).value.items <==> x in d.strings
    ensures d.kind !in {"null", "string", "bool", "int", "float", "time", "ip", "string_set"} ==>
            BuildValue(p, d) == Err(InvalidDocument)
  {
    assert HoldsExactly(SetOf(d.strings), d.strings);
  }

  function BuildValues(p: Parsers, ds: seq<ValueDocument>): Result<seq<Value>, DocumentError> {
    if ds == [] then Ok([])
    else
      var head := BuildValue(p, ds[0]);
      if head.Err? then Err(head.error)
      else
        var rest := BuildValues(p, ds[1..]);
        if rest.Err? then rest else Ok([head.value] + rest.value)
  }

  function BuildReference(d: ConditionDocument): Result<Reference, DocumentError> {
    if d.attribute == "" then Err(InvalidDocument)
    else
      match d.source
      case "subject" => Ok(Reference(SubjectSource, d.attribute))
      case "resource" => Ok(Reference(ResourceSource, d.attribute))
      case "request" => Ok(Reference(RequestSource, d.attribute))
      case "environment" => Ok(Reference(EnvironmentSource, d.attribute))
      case _ => Err(InvalidDocument)
  }

  // ---- build ----

  predicate Branches(d: ConditionDocument) { d.operator == "all" || d.operator == "any" }

  function BuildLiteral(p: Parsers, d: ConditionDocument): Result<Value, DocumentError> {
    if d.value.None? then Err(InvalidDocument) else BuildValue(p, d.value.value)
  }

  function BuildLeaf(p: Parsers, d: ConditionDocument, ref: Reference): (r: Result<Condition, DocumentError>)
    ensures r.Ok? ==> IsLeaf(r.value)
  {
    match d.operator
    case "exists" => Ok(Exists(ref))
    case "is_null" => Ok(IsNull(ref))
    case "equal" => var v := BuildLiteral(p, d); if v.Ok? then Ok(Equals(ref, v.value)) else Err(v.error)
    case "greater_than" => var v := BuildLiteral(p, d); if v.Ok? then Ok(Compares(ref, v.value, true)) else Err(v.error)
    case "less_than" => var v := BuildLiteral(p, d); if v.Ok? then Ok(Compares(ref, v.value, false)) else Err(v.error)
    case "in" => var vs := BuildValues(p, d.values); if vs.Ok? then Ok(In(ref, vs.value)) else Err(vs.error)
    case "set_contains" => Ok(SetContains(ref, d.text))
    case "has_prefix" => Ok(StringTest(ref, d.text, HasPrefix))
    case "has_suffix" => Ok(StringTest(ref, d.text, HasSuffix))
    case "string_contains" => Ok(StringTest(ref, d.text, Operator.Contains))
    case "ip_in" => var x := p.prefix(d.prefix); if x.Some? then Ok(AddressIn(ref, x.value)) else Err(InvalidDocument)
    case _ => Err(InvalidDocument)
  }

  function BuildList(p: Parsers, ds: seq<ConditionDocument>): (r: Result<seq<Condition>, DocumentError>)
    ensures r.Ok? ==> |r.value| == |ds| && Absent !in r.value
    decreases ds, 0
  {
    if ds == [] then Ok([])
    else
      var head := Build(p, ds[0]);
      if head.Err? then Err(head.error)
      else
        var rest := BuildList(p, ds[1..]);
        if rest.Err? then rest else Ok([head.value] + rest.value)
  }

  function Build(p: Parsers, d: ConditionDocument): (r: Result<Condition, DocumentError>)
    ensures r.Ok? ==> !r.value.Absent?
    decreases d, 1
  {
    if Branches(d) then
      var cs := BuildList(p, d.conditions);
      if cs.Err? then Err(cs.error) else if d.operator == "all" then Ok(All(cs.value)) else Ok(Any(cs.value))
    else if d.operator == "not" then
      if d.condition.None? then Err(InvalidDocument)
      else
        var c := Build(p, d.condition.value);
        if c.Err? then c else Ok(Not(c.value))
    else
      var ref := BuildReference(d);
      if ref.Err? then Err(ref.error) else BuildLeaf(p, d, ref.value)
  }

  // ---- The document's own meaning ----

  /** What a literal comparison says about a present value of admitted size. */
  function CompareLiteral(operator: string, got: Value, want: Value): Meaning {
    if got.Null? then Done(if operator == "equal" && want.Null? then StatusMatch else StatusNull)
    else if KindOf(got) != KindOf(want) then Done(StatusTypeMismatch)
    else if operator == "equal" then Truth(Equal(got, want))
    else
      var c := Compare(got, want);
      Truth(c.Ordered? && if operator == "greater_than" then c.sign > 0 else c.sign < 0)
  }

  function TestText(operator: string, text: string, value: string): Meaning {
    match operator
    case "has_prefix" => Truth(text <= value)
    case "has_suffix" => Truth(IsSuffix(text, value))
    case _ => Truth(IsSubstring(text, value))
  }

  /** The leaf operators, read off the document. */
  function InterpretLeaf(p: Parsers, d: ConditionDocument, got: Value, maxSetSize: nat): Meaning {
    if d.operator == "exists" then Truth(got != Missing)
    else if d.operator == "is_null" then Truth(got == Null)
    else if got == Missing then Done(StatusMissing)
    else if TooLarge(got, maxSetSize) then Oversize
    else if d.operator in {"equal", "greater_than", "less_than"} then
      var want := BuildLiteral(p, d);
      if want.Err? then Stuck else CompareLiteral(d.operator, got, want.value)
    else if got == Null then Done(StatusNull)
    else if d.operator == "in" then
      var values := BuildValues(p, d.values);
      if values.Err? || values.value == [] then Stuck
      else if KindOf(got) != KindOf(values.value[0]) then Done(StatusTypeMismatch)
      else Truth(got in values.value)
    else if d.operator == "set_contains" then
      if got.Strings? then Truth(d.text in got.items) else Done(StatusTypeMismatch)
    else if d.operator in {"has_prefix", "has_suffix", "string_contains"} then
      if got.Text? then TestText(d.operator, d.text, got.text) else Done(StatusTypeMismatch)
    else if d.operator == "ip_in" then
      var prefix := p.prefix(d.prefix);
      if prefix.None? then Stuck
      else if got.Address? then Truth(got.address in prefix.value.members)
      else Done(StatusTypeMismatch)
    else Stuck
  }

  function InterpretAll(p: Parsers, ds: seq<ConditionDocument>, request: Request, maxSetSize: nat): Meaning
    decreases ds, 0
  {
    if ds == [] then Done(StatusMatch)
    else
      var head := Interpret(p, ds[0], request, maxSetSize);
      if head == Done(StatusMatch) then InterpretAll(p, ds[1..], request, maxSetSize) else head
  }

  function InterpretAny(p: Parsers, ds: seq<ConditionDocument>, request: Request, maxSetSize: nat): Meaning
    decreases ds, 0
  {
    if ds == [] then Done(StatusNoMatch)
    else
      var head := Interpret(p, ds[0], request, maxSetSize);
      if !head.Done? || head.status == StatusMatch then head
      else Resume(head.status, InterpretAny(p, ds[1..], request, maxSetSize))
  }

  /** The fact a document is about, taken from the map that its source names. */
  function FactFor(d: ConditionDocument, request: Request): Option<Value> {
    if d.attribute == "" then None
    else
      match d.source
      case "subject" => Some(ValueIn(request.subject.attributes, d.attribute))
      case "resource" => Some(ValueIn(request.resource.attributes, d.attribute))
      case "request" => Some(ValueIn(request.attributes, d.attribute))
      case "environment" => Some(ValueIn(request.environment.attributes, d.attribute))
      case _ => None
  }

  function ValueIn(facts: Facts, name: string): Value { if name in facts then facts[name] else Missing }

  /** Evaluates a document without building it. */
  function Interpret(p: Parsers, d: ConditionDocument, request: Request, maxSetSize: nat): Meaning
    decreases d, 1
  {
    if d.operator == "all" then InterpretAll(p, d.conditions, request, maxSetSize)
    else if d.operator == "any" then InterpretAny(p, d.conditions, request, maxSetSize)
    else if d.operator == "not" then
      if d.condition.None? then Stuck
      else
        var inner := Interpret(p, d.condition.value, request, maxSetSize);
        if inner == Done(StatusMatch) then Done(StatusNoMatch)
        else if inner == Done(StatusNoMatch) then Done(StatusMatch)
        else inner
    else
      var fact := FactFor(d, request);
      if fact.None? then Stuck else InterpretLeaf(p, d, fact.value, maxSetSize)
  }

  /** The compiled reference reads the fact that the document names. */
  lemma FactIsLookup(d: ConditionDocument, request: Request)
    ensures BuildReference(d).Ok? <==> FactFor(d, request).Some?
    ensures BuildReference(d).Ok? ==> Lookup(request, BuildReference(d).value) == FactFor(d, request).value
  {
  }

  lemma MembershipIsEquality(got: Value, values: seq<Value>)
    ensures (exists v :: v in values && Equal(got, v)) <==> got in values
  {
    forall v ensures Equal(got, v) <==> got == v {
    }
  }

  lemma LeafMeaningPreserved(p: Parsers, d: ConditionDocument, ref: Reference, request: Request, maxSetSize: nat)
    requires BuildLeaf(p, d, ref).Ok?
    ensures InterpretLeaf(p, d, Lookup(request, ref), maxSetSize)
         == LeafMeaning(BuildLeaf(p, d, ref).value, request, maxSetSize)
  {
    var got := Lookup(request, ref);
    if d.operator == "in" {
      MembershipIsEquality(got, BuildValues(p, d.values).value);
    }
  }

  /** Compilation preserves meaning. */
  lemma {:induction false} BuildPreservesMeaning(p: Parsers, d: ConditionDocument, request: Request, maxSetSize: nat)
    requires Build(p, d).Ok?
    ensures MeaningOf(Build(p, d).value, request, maxSetSize) == Interpret(p, d, request, maxSetSize)
    decreases d, 1
  {
    if Branches(d) {
      BuildListPreservesMeaning(p, d.conditions, request, maxSetSize);
    } else if d.operator == "not" {
      BuildPreservesMeaning(p, d.condition.value, request, maxSetSize);
    } else {
      FactIsLookup(d, request);
      LeafMeaningPreserved(p, d, BuildReference(d).value, request, maxSetSize);
    }
  }

  lemma {:induction false} BuildListPreservesMeaning(
    p: Parsers, ds: seq<ConditionDocument>, request: Request, maxSetSize: nat)
    requires BuildList(p, ds).Ok?
    ensures AllMeaning(BuildList(p, ds).value, request, maxSetSize) == InterpretAll(p, ds, request, maxSetSize)
    ensures AnyMeaning(BuildList(p, ds).value, request, maxSetSize) == InterpretAny(p, ds, request, maxSetSize)
    decreases ds, 0
  {
    if ds != [] {
      BuildPreservesMeaning(p, ds[0], request, maxSetSize);
      BuildListPreservesMeaning(p, ds[1..], request, maxSetSize);
      HeadAndTail(Build(p, ds[0]).value, BuildList(p, ds[1..]).value);
    }
  }

  /** A compiled negation exchanges match and no match and passes everything else on. */
  lemma NegatedDocument(p: Parsers, d: ConditionDocument, inner: ConditionDocument, request: Request, maxSetSize: nat)
    requires d.operator == "not" && d.condition == Some(inner) && Build(p, d).Ok?
    ensures MeaningOf(Build(p, d).value, request, maxSetSize) == Done(StatusMatch) <==>
            Interpret(p, inner, request, maxSetSize) == Done(StatusNoMatch)
    ensures MeaningOf(Build(p, d).value, request, maxSetSize) == Done(StatusNoMatch) <==>
            Interpret(p, inner, request, maxSetSize) == Done(StatusMatch)
  {
    BuildPreservesMeaning(p, d, request, maxSetSize);
  }

  // ---- Depth ----

  function DocumentDepths(ds: seq<ConditionDocument>): nat
    decreases ds, 0
  {
    if ds == [] then 0 else Max(DocumentDepth(ds[0]), DocumentDepths(ds[1..]))
  }

  /** Depth through the children that the operator selects. */
  function DocumentDepth(d: ConditionDocument): (n: nat)
    ensures n >= 1
    decreases d, 1
  {
    if Branches(d) then 1 + DocumentDepths(d.conditions)
    else if d.operator == "not" && d.condition.Some? then 1 + DocumentDepth(d.condition.value)
    else 1
  }

  /** Compilation preserves depth. */
  lemma {:induction false} BuildPreservesDepth(p: Parsers, d: ConditionDocument)
    requires Build(p, d).Ok?
    ensures Depth(Build(p, d).value) == DocumentDepth(d)
    decreases d, 1
  {
    if Branches(d) {
      BuildListPreservesDepth(p, d.conditions);
    } else if d.operator == "not" {
      BuildPreservesDepth(p, d.condition.value);
    }
  }

  lemma {:induction false} BuildListPreservesDepth(p: Parsers, ds: seq<ConditionDocument>)
    requires BuildList(p, ds).Ok?
    ensures Depths(BuildList(p, ds).value) == DocumentDepths(ds)
    decreases ds, 0
  {
    if ds != [] {
      BuildPreservesDepth(p, ds[0]);
      BuildListPreservesDepth(p, ds[1..]);
      HeadAndTail(Build(p, ds[0]).value, BuildList(p, ds[1..]).value);
    }
  }

  // ---- validateConditionDocumentLimits ----

  datatype Frame = Frame(document: ConditionDocument, depth: nat)

  function Children(d: ConditionDocument): seq<ConditionDocument> {
    if Branches(d) then d.conditions
    else if d.operator == "not" && d.condition.Some? then [d.condition.value]
    else []
  }

  function SizeOf(ds: seq<ConditionDocument>): nat
    decreases ds, 0
  {
    if ds == [] then 0 else Size(ds[0]) + SizeOf(ds[1..])
  }

  /** The selected nodes of a document. */
  function Size(d: ConditionDocument): (n: nat)
    ensures n >= 1
    decreases d, 1
  {
    if Branches(d) then 1 + SizeOf(d.conditions)
    else if d.operator == "not" && d.condition.Some? then 1 + Size(d.condition.value)
    else 1
  }

  function StackSize(stack: seq<Frame>): nat {
    if stack == [] then 0 else StackSize(stack[..|stack| - 1]) + Size(stack[|stack| - 1].document)
  }

  predicate FrameTooDeep(f: Frame, maxDepth: nat) { f.depth + DocumentDepth(f.document) > maxDepth + 1 }

  ghost predicate TooDeep(stack: seq<Frame>, maxDepth: nat) { exists f :: f in stack && FrameTooDeep(f, maxDepth) }

  lemma {:induction false} DeepestChild(ds: seq<ConditionDocument>, bound: int)
    requires bound >= 0
    ensures DocumentDepths(ds) > bound <==> exists i :: 0 <= i < |ds| && DocumentDepth(ds[i]) > bound
  {
    if ds != [] {
      DeepestChild(ds[1..], bound);
      assert forall i :: 1 <= i < |ds| ==> ds[i] == ds[1..][i - 1];
    }
  }

  lemma {:induction false} DepthThroughChildren(d: ConditionDocument, bound: int)
    requires bound >= 1
    ensures DocumentDepth(d) > bound <==>
            exists i :: 0 <= i < |Children(d)| && DocumentDepth(Children(d)[i]) > bound - 1
    ensures Size(d) == 1 + SizeOf(Children(d))
  {
    if Branches(d) {
      DeepestChild(d.conditions, bound - 1);
      assert Children(d) == d.conditions;
    } else if d.operator == "not" && d.condition.Some? {
      assert Children(d) == [d.condition.value] && Children(d)[0] == d.condition.value;
      assert Children(d)[1..] == [];
    }
  }

  lemma StackPush(stack: seq<Frame>, f: Frame, maxDepth: nat)
    ensures StackSize(stack + [f]) == StackSize(stack) + Size(f.document)
    ensures TooDeep(stack + [f], maxDepth) <==> TooDeep(stack, maxDepth) || FrameTooDeep(f, maxDepth)
  {
    assert (stack + [f])[..|stack|] == stack;
    assert forall g :: g in stack + [f] <==> g in stack || g == f;
  }

  ghost predicate SomeTooDeep(ds: seq<ConditionDocument>, depth: nat, maxDepth: nat) {
    exists i :: 0 <= i < |ds| && FrameTooDeep(Frame(ds[i], depth), maxDepth)
  }

  method PushChildren(stack: seq<Frame>, children: seq<ConditionDocument>, depth: nat, ghost maxDepth: nat)
    returns (pushed: seq<Frame>)
    ensures StackSize(pushed) == StackSize(stack) + SizeOf(children)
    ensures TooDeep(pushed, maxDepth) <==> TooDeep(stack, maxDepth) || SomeTooDeep(children, depth, maxDepth)
  {
    pushed := stack;
    var index := |children|;
    while index > 0
      invariant 0 <= index <= |children|
      invariant StackSize(pushed) == StackSize(stack) + SizeOf(children[index..])
      invariant TooDeep(pushed, maxDepth) <==>
                TooDeep(stack, maxDepth) || SomeTooDeep(children[index..], depth, maxDepth)
    {
      index := index - 1;
      StackPush(pushed, Frame(children[index], depth), maxDepth);
      OneMoreChild(children, index, depth, maxDepth);
      pushed := pushed + [Frame(children[index], depth)];
    }
    assert children[0..] == children;
  }

  lemma OneMoreChild(children: seq<ConditionDocument>, index: nat, depth: nat, maxDepth: nat)
    requires index < |children|
    ensures SizeOf(children[index..]) == Size(children[index]) + SizeOf(children[index + 1..])
    ensures SomeTooDeep(children[index..], depth, maxDepth) <==>
            FrameTooDeep(Frame(children[index], depth), maxDepth) || SomeTooDeep(children[index + 1..], depth, maxDepth)
  {
    var here, later := children[index..], children[index + 1..];
    assert here[1..] == later;
    if SomeTooDeep(here, depth, maxDepth) {
      var i :| 0 <= i < |here| && FrameTooDeep(Frame(here[i], depth), maxDepth);
      if i > 0 { assert later[i - 1] == here[i]; }
    }
    if SomeTooDeep(later, depth, maxDepth) {
      var i :| 0 <= i < |later| && FrameTooDeep(Frame(later[i], depth), maxDepth);
      assert here[i + 1] == later[i];
    }
  }

  lemma PopFrame(stack: seq<Frame>, maxDepth: nat)
    requires stack != []
    ensures var below, current := stack[..|stack| - 1], stack[|stack| - 1];
            && StackSize(stack) == StackSize(below) + 1 + SizeOf(Children(current.document))
            && (current.depth > maxDepth ==> TooDeep(stack, maxDepth))
            && (current.depth <= maxDepth ==>
                  (TooDeep(stack, maxDepth) <==>
                   TooDeep(below, maxDepth) || SomeTooDeep(Children(current.document), current.depth + 1, maxDepth)))
  {
    var below, current := stack[..|stack| - 1], stack[|stack| - 1];
    assert stack == below + [current];
    StackPush(below, current, maxDepth);
    DepthThroughChildren(current.document, 1);
    if current.depth <= maxDepth {
      DepthThroughChildren(current.document, maxDepth + 1 - current.depth);
    } else {
      assert FrameTooDeep(current, maxDepth);
    }
  }

  /** The preflight rejects exactly the documents whose selected tree is too deep. */
  method ValidateDocumentLimits(root: ConditionDocument, maxDepth: nat) returns (err: Option<ValidationError>)
    ensures err == if DocumentDepth(root) <= maxDepth then None else Some(DepthExceeded)
  {
    var stack := [Frame(root, 1)];
    assert [] + stack == stack;
    StackPush([], Frame(root, 1), maxDepth);
    while stack != []
      invariant TooDeep(stack, maxDepth) <==> DocumentDepth(root) > maxDepth
      decreases StackSize(stack)
    {
      var current := stack[|stack| - 1];
      PopFrame(stack, maxDepth);
      stack := stack[..|stack| - 1];
      if current.depth > maxDepth {
        return Some(DepthExceeded);
      }
      stack := PushChildren(stack, Children(current.document), current.depth + 1, maxDepth);
    }
    return None;
  }

  /** A document that passes the preflight never fails the depth check of New. */
  lemma PreflightCoversDepth(p: Parsers, d: ConditionDocument, limits: Limits)
    requires Build(p, d).Ok? && DocumentDepth(d) <= limits.maxDepth
    ensures FirstFault(Nodes(Build(p, d).value, 1), limits, 0) != Some(DepthExceeded)
  {
    var c := Build(p, d).value;
    BuildPreservesDepth(p, d);
    NodesSummary(c, 1, limits.maxDepth);
    NoDepthFault(Nodes(c, 1), limits, 0);
  }

  lemma {:induction false} NoDepthFault(nodes: seq<Node>, limits: Limits, used: nat)
    requires DepthsWithin(nodes, limits.maxDepth)
    ensures FirstFault(nodes, limits, used) != Some(DepthExceeded)
  {
    if nodes != [] {
      assert nodes[0] in nodes;
      NoDepthFault(nodes[1..], limits, used + LocalCardinality(nodes[0].condition));
    }
  }

  // ---- Document.Build ----

  datatype RuleDocument = RuleDocument(
    id: string, priority: int, tenant: string, action: string, resourceType: string, resourceID: string,
    effect: string, condition: Option<ConditionDocument>, conditionName: string, conditionVersion: nat)

  datatype NamedDocument = NamedDocument(name: string, version: nat, condition: ConditionDocument)

  datatype Document = Document(version: nat, limits: Limits, rules: seq<RuleDocument>, named: seq<NamedDocument>)

  datatype BuildError =
    | UnsupportedVersion | Preflight(validation: ValidationError)
    | Compile(document: DocumentError) | Model(model: Abac.Error)

  const DOCUMENT_VERSION := 1

  function CompileNamed(p: Parsers, d: NamedDocument): Result<Abac.NamedCondition, DocumentError> {
    var c := Build(p, d.condition);
    if c.Err? then Err(c.error) else Ok(Abac.NamedCondition(d.name, d.version, c.value))
  }

  function CompileRule(p: Parsers, d: RuleDocument): Result<Abac.Rule, DocumentError> {
    if d.effect != "allow" && d.effect != "deny" then Err(InvalidDocument)
    else
      var c := if d.condition.Some? then Build(p, d.condition.value) else Ok(Absent);
      if c.Err? then Err(c.error)
      else Ok(Abac.Rule(
                d.id, d.priority, d.tenant, d.action, d.resourceType, d.resourceID,
                if d.effect == "allow" then Allow else Deny, c.value, d.conditionName, d.conditionVersion))
  }

  ghost predicate PreflightFine(d: Document) {
    && (forall i :: 0 <= i < |d.named| ==> DocumentDepth(d.named[i].condition) <= d.limits.maxDepth)
    && (forall i :: 0 <= i < |d.rules| && d.rules[i].condition.Some? ==>
          DocumentDepth(d.rules[i].condition.value) <= d.limits.maxDepth)
  }

  /** `named` and `rules` are the document's definitions, each compiled. */
  ghost predicate CompiledTo(p: Parsers, d: Document, rules: seq<Abac.Rule>, named: seq<Abac.NamedCondition>) {
    && |named| == |d.named| && (forall i :: 0 <= i < |named| ==> CompileNamed(p, d.named[i]) == Ok(named[i]))
    && |rules| == |d.rules| && (forall i :: 0 <= i < |rules| ==> CompileRule(p, d.rules[i]) == Ok(rules[i]))
  }

  /** The error of the first definition that does not compile, named conditions before rules. */
  ghost predicate FirstCompileError(p: Parsers, d: Document, e: DocumentError) {
    || (exists i :: 0 <= i < |d.named| && CompileNamed(p, d.named[i]) == Err(e) &&
                    forall j :: 0 <= j < i ==> CompileNamed(p, d.named[j]).Ok?)
    || ((forall j :: 0 <= j < |d.named| ==> CompileNamed(p, d.named[j]).Ok?) &&
        exists i :: 0 <= i < |d.rules| && CompileRule(p, d.rules[i]) == Err(e) &&
                    forall j :: 0 <= j < i ==> CompileRule(p, d.rules[j]).Ok?)
  }

  method PreflightAll(d: Document) returns (err: Option<BuildError>)
    ensures err == if PreflightFine(d) then None else Some(Preflight(DepthExceeded))
  {
    for i := 0 to |d.named|
      invariant forall j :: 0 <= j < i ==> DocumentDepth(d.named[j].condition) <= d.limits.maxDepth
    {
      var e := ValidateDocumentLimits(d.named[i].condition, d.limits.maxDepth);
      if e.Some? {
        return Some(Preflight(e.value));
      }
    }
    for i := 0 to |d.rules|
      invariant forall j :: 0 <= j < i && d.rules[j].condition.Some? ==>
        DocumentDepth(d.rules[j].condition.value) <= d.limits.maxDepth
    {
      if d.rules[i].condition.Some? {
        var e := ValidateDocumentLimits(d.rules[i].condition.value, d.limits.maxDepth);
        if e.Some? {
          return Some(Preflight(e.value));
        }
      }
    }
    return None;
  }

  method CompileAll(p: Parsers, d: Document)
    returns (r: Result<(seq<Abac.Rule>, seq<Abac.NamedCondition>), DocumentError>)
    ensures r.Ok? ==> CompiledTo(p, d, r.value.0, r.value.1)
    ensures r.Err? ==> FirstCompileError(p, d, r.error) && forall rules, named :: !CompiledTo(p, d, rules, named)
  {
    var named: seq<Abac.NamedCondition> := [];
    for i := 0 to |d.named|
      invariant |named| == i && forall j :: 0 <= j < i ==> CompileNamed(p, d.named[j]) == Ok(named[j])
    {
      var c := CompileNamed(p, d.named[i]);
      if c.Err? {
        return Err(c.error);
      }
      named := named + [c.value];
    }
    var rules: seq<Abac.Rule> := [];
    for i := 0 to |d.rules|
      invariant |rules| == i && forall j :: 0 <= j < i ==> CompileRule(p, d.rules[j]) == Ok(rules[j])
    {
      var c := CompileRule(p, d.rules[i]);
      if c.Err? {
        return Err(c.error);
      }
      rules := rules + [c.value];
    }
    return Ok((rules, named));
  }

  lemma CompiledUnique(p: Parsers, d: Document, rules: seq<Abac.Rule>, named: seq<Abac.NamedCondition>,
                       rules': seq<Abac.Rule>, named': seq<Abac.NamedCondition>)
    requires CompiledTo(p, d, rules, named) && CompiledTo(p, d, rules', named')
    ensures rules == rules' && named == named'
  {
    forall i | 0 <= i < |rules| ensures rules[i] == rules'[i] {
      assert CompileRule(p, d.rules[i]) == Ok(rules[i]);
    }
    forall i | 0 <= i < |named| ensures named[i] == named'[i] {
      assert CompileNamed(p, d.named[i]) == Ok(named[i]);
    }
  }

  lemma NamedDepthFine(p: Parsers, d: Document, rules: seq<Abac.Rule>, named: seq<Abac.NamedCondition>, i: nat)
    requires PreflightFine(d) && CompiledTo(p, d, rules, named) && i < |named|
    ensures Abac.ConditionFault(named[i].condition, d.limits) != Some(DepthExceeded)
  {
    assert CompileNamed(p, d.named[i]) == Ok(named[i]);
    PreflightCoversDepth(p, d.named[i].condition, d.limits);
  }

  lemma RuleDepthFine(p: Parsers, d: Document, rules: seq<Abac.Rule>, named: seq<Abac.NamedCondition>, i: nat)
    requires PreflightFine(d) && CompiledTo(p, d, rules, named) && i < |rules|
    ensures Abac.RuleFault(rules, Abac.NamedMap(named), d.limits, i) != Some(Abac.BadCondition(DepthExceeded))
  {
    var rule := rules[i];
    assert CompileRule(p, d.rules[i]) == Ok(rule);
    if rule.conditionName != "" {
      var key := Abac.NamedKey(rule.conditionName, rule.conditionVersion);
      Abac.NamedMapKeys(named, key);
      if key in Abac.NamedMap(named) {
        var j :| 0 <= j < |named| && Abac.KeyOf(named[j]) == key && Abac.NamedMap(named)[key] == named[j].condition;
        NamedDepthFine(p, d, rules, named, j);
      }
    } else if d.rules[i].condition.Some? {
      PreflightCoversDepth(p, d.rules[i].condition.value, d.limits);
    }
  }

  lemma NoDepthErrorFromNew(p: Parsers, d: Document, rules: seq<Abac.Rule>, named: seq<Abac.NamedCondition>)
    requires PreflightFine(d) && CompiledTo(p, d, rules, named)
    ensures !Abac.FirstNamedFault(named, d.limits, Abac.BadCondition(DepthExceeded))
    ensures !Abac.FirstRuleFault(rules, Abac.NamedMap(named), d.limits, Abac.BadCondition(DepthExceeded))
  {
    forall i | 0 <= i < |named| ensures Abac.NamedFault(named, d.limits, i) != Some(Abac.BadCondition(DepthExceeded)) {
      NamedDepthFine(p, d, rules, named, i);
    }
    forall i | 0 <= i < |rules|
      ensures Abac.RuleFault(rules, Abac.NamedMap(named), d.limits, i) != Some(Abac.BadCondition(DepthExceeded))
    {
      RuleDepthFine(p, d, rules, named, i);
    }
  }

  /** The evaluator of the compiled document, which New accepts. */
  ghost predicate Builds(p: Parsers, d: Document, ev: Abac.Evaluator) {
    exists rules, named ::
      && CompiledTo(p, d, rules, named) && Abac.WellFormed(rules, named, d.limits)
      && ev == Abac.Evaluator(Abac.InForce(rules, named), d.limits)
  }

  /** Build accepts exactly the documents that pass the preflight, compile and satisfy New. */
  method BuildDocument(p: Parsers, d: Document) returns (r: Result<Abac.Evaluator, BuildError>)
    ensures r.Ok? ==> Builds(p, d, r.value)
    ensures r.Ok? <==> d.version == DOCUMENT_VERSION && PreflightFine(d) &&
                       exists rules, named :: CompiledTo(p, d, rules, named) && Abac.WellFormed(rules, named, d.limits)
    ensures r == Err(UnsupportedVersion) <==> d.version != DOCUMENT_VERSION
    ensures r == Err(Preflight(DepthExceeded)) <==> d.version == DOCUMENT_VERSION && !PreflightFine(d)
    ensures r.Err? && r.error.Preflight? ==> r.error.validation == DepthExceeded
    ensures r.Err? && r.error.Compile? ==> PreflightFine(d) && FirstCompileError(p, d, r.error.document)
    ensures r.Err? && r.error.Model? ==> PreflightFine(d) && exists rules, named :: CompiledTo(p, d, rules, named)
    ensures r != Err(Model(Abac.BadCondition(DepthExceeded)))
  {
    if d.version != DOCUMENT_VERSION {
      return Err(UnsupportedVersion);
    }
    var deep := PreflightAll(d);
    if deep.Some? {
      return Err(deep.value);
    }
    var compiled := CompileAll(p, d);
    if compiled.Err? {
      return Err(Compile(compiled.error));
    }
    var (rules, named) := compiled.value;
    NoDepthErrorFromNew(p, d, rules, named);
    var built := Abac.New(rules, named, d.limits);
    if built.Err? {
      forall rules', named' | CompiledTo(p, d, rules', named') ensures !Abac.WellFormed(rules', named', d.limits) {
        CompiledUnique(p, d, rules, named, rules', named');
      }
      return Err(Model(built.error));
    }
    return Ok(built.value);
  }
}
