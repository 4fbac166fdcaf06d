// Which documents compile, and with which error, in the fields of their nodes (abac/document.go).
module DocumentMeaning {
  import opened Decisions
  import opened Conditions
  import opened ConditionDocuments

  /** The nodes that compilation visits, a parent before its children and children in order. */
  function Parts(d: ConditionDocument): (r: seq<ConditionDocument>)
    ensures r != [] && r[0] == d
    decreases d, 1
  {
    if d.operator == "all" || d.operator == "any" then [d] + PartsOf(d.conditions)
    else if d.operator == "not" && d.condition.Some? then [d] + Parts(d.condition.value)
    else [d]
  }

  function PartsOf(ds: seq<ConditionDocument>): seq<ConditionDocument>
    decreases ds, 0
  {
    if ds == [] then [] else Parts(ds[0]) + PartsOf(ds[1..])
  }

  predicate Denotes(p: Parsers, v: ValueDocument) {
    || v.kind in {"null", "string", "bool", "int", "string_set"}
    || (v.kind == "float" && v.float.Finite?)
    || (v.kind == "time" && p.instant(v.time).Some?)
    || (v.kind == "ip" && p.address(v.address).Some?)
  }

  predicate NotANumber(v: ValueDocument) { v.kind == "float" && v.float.NotFinite? }

  predicate Refers(d: ConditionDocument) {
    d.attribute != "" && d.source in {"subject", "resource", "request", "environment"}
  }

  predicate Compares(d: ConditionDocument) { d.operator in {"equal", "greater_than", "less_than"} }

  /** A node has what its operator needs. */
  predicate Complete(p: Parsers, d: ConditionDocument) {
    || d.operator in {"all", "any"}
    || (d.operator == "not" && d.condition.Some?)
    || (&& Refers(d)
        && (|| d.operator in {"exists", "is_null", "set_contains", "has_prefix", "has_suffix", "string_contains"}
            || (Compares(d) && d.value.Some? && Denotes(p, d.value.value))
            || (d.operator == "in" && forall i :: 0 <= i < |d.values| ==> Denotes(p, d.values[i]))
            || (d.operator == "ip_in" && p.prefix(d.prefix).Some?)))
  }

  /** The first literal of the node that denotes nothing is a float that is not finite. */
  predicate FaultyFloat(p: Parsers, d: ConditionDocument) {
    && Refers(d)
    && (|| (Compares(d) && d.value.Some? && NotANumber(d.value.value))
        || (d.operator == "in" && FaultyFloatIn(p, d.values)))
  }

  predicate FaultyFloatIn(p: Parsers, vs: seq<ValueDocument>) {
    exists i :: 0 <= i < |vs| && NotANumber(vs[i]) && forall j :: 0 <= j < i ==> Denotes(p, vs[j])
  }

  function FaultOf(p: Parsers, d: ConditionDocument): Option<DocumentError> {
    if Complete(p, d) then None else if FaultyFloat(p, d) then Some(InvalidFloat) else Some(InvalidDocument)
  }

  /** `e` is the fault of the first faulty node. */
  predicate FirstFault(p: Parsers, ds: seq<ConditionDocument>, e: DocumentError) {
    exists i :: 0 <= i < |ds| && FaultOf(p, ds[i]) == Some(e) && forall j :: 0 <= j < i ==> Complete(p, ds[j])
  }

  predicate AllComplete(p: Parsers, ds: seq<ConditionDocument>) {
    forall i :: 0 <= i < |ds| ==> Complete(p, ds[i])
  }

  lemma ConcatComplete(p: Parsers, a: seq<ConditionDocument>, b: seq<ConditionDocument>)
    ensures AllComplete(p, a + b) <==> AllComplete(p, a) && AllComplete(p, b)
  {
    if AllComplete(p, a + b) {
      forall i | 0 <= i < |a| ensures Complete(p, a[i]) { assert (a + b)[i] == a[i]; }
      forall i | 0 <= i < |b| ensures Complete(p, b[i]) { assert (a + b)[|a| + i] == b[i]; }
    }
  }

  lemma ConcatFault(p: Parsers, a: seq<ConditionDocument>, b: seq<ConditionDocument>, e: DocumentError)
    ensures FirstFault(p, a, e) ==> FirstFault(p, a + b, e)
    ensures AllComplete(p, a) && FirstFault(p, b, e) ==> FirstFault(p, a + b, e)
  {
    var s := a + b;
    if i :| 0 <= i < |a| && FaultOf(p, a[i]) == Some(e) && forall j :: 0 <= j < i ==> Complete(p, a[j]) {
      assert s[i] == a[i] && forall j :: 0 <= j < i ==> s[j] == a[j];
    }
    if AllComplete(p, a) && FirstFault(p, b, e) {
      var i :| 0 <= i < |b| && FaultOf(p, b[i]) == Some(e) && forall j :: 0 <= j < i ==> Complete(p, b[j]);
      assert s[|a| + i] == b[i];
      assert forall j :: |a| <= j < |a| + i ==> s[j] == b[j - |a|];
    }
  }

  lemma LiteralDenotes(p: Parsers, v: ValueDocument)
    ensures BuildValue(p, v).Ok? <==> Denotes(p, v)
    ensures BuildValue(p, v).Err? ==> BuildValue(p, v).error == if NotANumber(v) then InvalidFloat else InvalidDocument
  {
    LiteralMeans(p, v);
  }

  lemma {:induction false} LiteralsDenote(p: Parsers, vs: seq<ValueDocument>)
    ensures BuildValues(p, vs).Ok? <==> forall i :: 0 <= i < |vs| ==> Denotes(p, vs[i])
    ensures BuildValues(p, vs).Err? ==>
            BuildValues(p, vs).error == if FaultyFloatIn(p, vs) then InvalidFloat else InvalidDocument
  {
    if vs != [] {
      LiteralDenotes(p, vs[0]);
      LiteralsDenote(p, vs[1..]);
      assert vs == [vs[0]] + vs[1..];
      FaultyFloatTail(p, vs);
    }
  }

  lemma FaultyFloatTail(p: Parsers, vs: seq<ValueDocument>)
    requires vs != []
    ensures FaultyFloatIn(p, vs) <==> NotANumber(vs[0]) || (Denotes(p, vs[0]) && FaultyFloatIn(p, vs[1..]))
  {
    var tail := vs[1..];
    if i :| 0 <= i < |vs| && NotANumber(vs[i]) && forall j :: 0 <= j < i ==> Denotes(p, vs[j]) {
      if i > 0 {
        assert tail[i - 1] == vs[i] && forall j :: 0 <= j < i - 1 ==> tail[j] == vs[j + 1];
      }
    }
    if Denotes(p, vs[0]) && FaultyFloatIn(p, tail) {
      var i :| 0 <= i < |tail| && NotANumber(tail[i]) && forall j :: 0 <= j < i ==> Denotes(p, tail[j]);
      assert vs[i + 1] == tail[i] && forall j :: 0 < j < i + 1 ==> vs[j] == tail[j - 1];
    }
  }

  /** A leaf compiles exactly when it is complete, and fails with its own fault. */
  lemma LeafCompiles(p: Parsers, d: ConditionDocument)
    requires d.operator !in {"all", "any", "not"}
    ensures Build(p, d).Ok? <==> Complete(p, d)
    ensures Build(p, d).Err? ==> FaultOf(p, d) == Some(Build(p, d).error)
  {
    LiteralsDenote(p, d.values);
    if d.value.Some? { LiteralDenotes(p, d.value.value); }
  }

  /** A condition compiles if and only if every node it visits is complete; else it reports the first fault. */
  lemma {:induction false} BuildMeans(p: Parsers, d: ConditionDocument)
    ensures Build(p, d).Ok? <==> AllComplete(p, Parts(d))
    ensures Build(p, d).Err? ==> FirstFault(p, Parts(d), Build(p, d).error)
    decreases d, 1
  {
    if d.operator == "all" || d.operator == "any" {
      BuildListMeans(p, d.conditions);
      ConcatComplete(p, [d], PartsOf(d.conditions));
      forall e { ConcatFault(p, [d], PartsOf(d.conditions), e); }
    } else if d.operator == "not" && d.condition.Some? {
      BuildMeans(p, d.condition.value);
      ConcatComplete(p, [d], Parts(d.condition.value));
      forall e { ConcatFault(p, [d], Parts(d.condition.value), e); }
    } else if d.operator != "not" {
      LeafCompiles(p, d);
    }
  }

  lemma {:induction false} BuildListMeans(p: Parsers, ds: seq<ConditionDocument>)
    ensures BuildList(p, ds).Ok? <==> AllComplete(p, PartsOf(ds))
    ensures BuildList(p, ds).Err? ==> FirstFault(p, PartsOf(ds), BuildList(p, ds).error)
    decreases ds, 0
  {
    if ds != [] {
      BuildMeans(p, ds[0]);
      BuildListMeans(p, ds[1..]);
      ConcatComplete(p, Parts(ds[0]), PartsOf(ds[1..]));
      forall e { ConcatFault(p, Parts(ds[0]), PartsOf(ds[1..]), e); }
    }
  }

  // ---- Rules and whole documents ----

  predicate RuleComplete(p: Parsers, d: RuleDocument) {
    d.effect in {"allow", "deny"} && (d.condition.Some? ==> AllComplete(p, Parts(d.condition.value)))
  }

  /** A rule compiles exactly when its effect and condition do, into a rule with its own fields. */
  lemma RuleMeans(p: Parsers, d: RuleDocument)
    ensures CompileRule(p, d).Ok? <==> RuleComplete(p, d)
    ensures d.effect !in {"allow", "deny"} ==> CompileRule(p, d) == Err(InvalidDocument)
    ensures d.effect in {"allow", "deny"} && CompileRule(p, d).Err? ==>
            d.condition.Some? && FirstFault(p, Parts(d.condition.value), CompileRule(p, d).error)
    ensures CompileRule(p, d).Ok? ==>
            var r := CompileRule(p, d).value;
            && r.id == d.id && r.priority == d.priority && r.tenant == d.tenant && r.action == d.action
            && r.resourceType == d.resourceType && r.resourceID == d.resourceID
            && r.conditionName == d.conditionName && r.conditionVersion == d.conditionVersion
            && r.effect == (if d.effect == "deny" then Deny else Allow)
            && (r.condition == Absent <==> d.condition.None?)
  {
    if d.condition.Some? { BuildMeans(p, d.condition.value); }
  }

  /** A document compiles if and only if every definition in it is complete. */
  lemma CompilesIff(p: Parsers, d: Document)
    ensures (exists rules, named :: CompiledTo(p, d, rules, named)) <==>
            && (forall i :: 0 <= i < |d.named| ==> AllComplete(p, Parts(d.named[i].condition)))
            && (forall i :: 0 <= i < |d.rules| ==> RuleComplete(p, d.rules[i]))
  {
    forall i | 0 <= i < |d.named|
      ensures CompileNamed(p, d.named[i]).Ok? <==> AllComplete(p, Parts(d.named[i].condition))
    {
      BuildMeans(p, d.named[i].condition);
    }
    forall i | 0 <= i < |d.rules| ensures CompileRule(p, d.rules[i]).Ok? <==> RuleComplete(p, d.rules[i]) {
      RuleMeans(p, d.rules[i]);
    }
    if (forall i :: 0 <= i < |d.named| ==> CompileNamed(p, d.named[i]).Ok?) &&
       (forall i :: 0 <= i < |d.rules| ==> CompileRule(p, d.rules[i]).Ok?) {
      var named := seq(|d.named|, i requires 0 <= i < |d.named| => CompileNamed(p, d.named[i]).value);
      var rules := seq(|d.rules|, i requires 0 <= i < |d.rules| => CompileRule(p, d.rules[i]).value);
      assert CompiledTo(p, d, rules, named);
    }
  }
}
