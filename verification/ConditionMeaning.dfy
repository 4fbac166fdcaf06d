// What conditions mean, said in the facts of the request alone: no lemma here
// states its conclusion with the lookups, comparisons and connectives of the model.
module ConditionMeaning {
  import opened Ordering
  import opened Attributes
  import opened Decisions
  import opened Conditions

  // ---- Orders ----

  /** The strings agree up to `k`, where `a` ends or has the smaller character. */
  predicate LessAt(a: string, b: string, k: int) {
    0 <= k <= |a| && k < |b| && a[..k] == b[..k] && (k == |a| || a[k] < b[k])
  }

  /** The string order is the dictionary order. */
  lemma {:induction false} StringLessMeans(a: string, b: string)
    ensures StringLess(a, b) <==> exists k :: LessAt(a, b, k)
  {
    if a == [] || b == [] || a[0] != b[0] {
      if StringLess(a, b) { assert LessAt(a, b, 0); }
    } else {
      StringLessMeans(a[1..], b[1..]);
      if StringLess(a, b) {
        var k :| LessAt(a[1..], b[1..], k);
        assert a[..k + 1] == [a[0]] + a[1..][..k] && b[..k + 1] == [b[0]] + b[1..][..k];
        assert LessAt(a, b, k + 1);
      }
      if k :| LessAt(a, b, k) {
        assert k > 0;
        assert a[1..k] == a[..k][1..] && b[1..k] == b[..k][1..];
        assert a[1..][..k - 1] == a[1..k] && b[1..][..k - 1] == b[1..k];
        assert LessAt(a[1..], b[1..], k - 1);
      }
    }
  }

  /** Smaller, for the values that have an order. */
  ghost predicate Smaller(v: Value, w: Value) {
    || (v.Text? && w.Text? && exists k :: LessAt(v.text, w.text, k))
    || (v.Integer? && w.Integer? && v.number < w.number)
    || (v.Float? && w.Float? && v.amount < w.amount)
    || (v.Instant? && w.Instant? && v.time < w.time)
  }

  lemma CompareMeans(v: Value, w: Value)
    ensures (Compare(v, w).Ordered? && Compare(v, w).sign < 0) <==> Smaller(v, w)
    ensures (Compare(v, w).Ordered? && Compare(v, w).sign > 0) <==> Smaller(w, v)
  {
    if v.Text? && w.Text? {
      StringLessMeans(v.text, w.text);
      StringLessMeans(w.text, v.text);
      StringTrichotomy(v.text, w.text);
    }
  }

  /** Values of one kind. */
  predicate Alike(v: Value, w: Value) {
    || (v.Missing? && w.Missing?) || (v.Null? && w.Null?) || (v.Text? && w.Text?) || (v.Boolean? && w.Boolean?)
    || (v.Integer? && w.Integer?) || (v.Float? && w.Float?) || (v.Instant? && w.Instant?)
    || (v.Address? && w.Address?) || (v.Strings? && w.Strings?)
  }

  lemma KindsMean(v: Value, w: Value)
    ensures KindOf(v) == KindOf(w) <==> Alike(v, w)
    ensures Equal(v, w) <==> v == w
  {
  }

  // ---- Facts ----

  /** The request holds this value under that name, in the map that the source names. */
  predicate Fact(request: Request, ref: Reference, v: Value) {
    && !v.Missing?
    && (|| (ref.source.SubjectSource? && ref.name in request.subject.attributes
            && request.subject.attributes[ref.name] == v)
        || (ref.source.ResourceSource? && ref.name in request.resource.attributes
            && request.resource.attributes[ref.name] == v)
        || (ref.source.RequestSource? && ref.name in request.attributes && request.attributes[ref.name] == v)
        || (ref.source.EnvironmentSource? && ref.name in request.environment.attributes
            && request.environment.attributes[ref.name] == v))
  }

  lemma LookupMeans(request: Request, ref: Reference, v: Value)
    ensures Lookup(request, ref) == v && v != Missing <==> Fact(request, ref, v)
  {
  }

  // ---- Leaves ----

  /** What a leaf asserts of a present value that is not null. */
  ghost predicate Asserts(c: Condition, v: Value)
    requires IsLeaf(c)
  {
    match c
    case Equals(_, want) => v == want
    case Exists(_) => true
    case IsNull(_) => false
    case Compares(_, want, greater) => if greater then Smaller(want, v) else Smaller(v, want)
    case In(_, values) => v in values
    case SetContains(_, text) => v.Strings? && text in v.items
    case StringTest(_, text, op) =>
      v.Text? && (match op
                  case HasPrefix => exists tail :: v.text == text + tail
                  case HasSuffix => exists head :: v.text == head + text
                  case Contains => exists head, tail :: v.text == head + text + tail)
    case AddressIn(_, prefix) => v.Address? && v.address in prefix.members
  }

  /** The value is of the kind that the leaf is about. */
  predicate RightKind(c: Condition, v: Value)
    requires IsLeaf(c)
  {
    match c
    case Equals(_, want) => Alike(v, want)
    case Compares(_, want, _) => Alike(v, want)
    case In(_, values) => values != [] && Alike(v, values[0])
    case SetContains(_, _) => v.Strings?
    case StringTest(_, _, _) => v.Text?
    case AddressIn(_, _) => v.Address?
    case _ => true
  }

  lemma StringHoldsMeans(op: Operator, text: string, value: string)
    ensures StringHolds(op, text, value) <==>
            match op
            case HasPrefix => exists tail :: value == text + tail
            case HasSuffix => exists head :: value == head + text
            case Contains => exists head, tail :: value == head + text + tail
  {
    match op
    case HasPrefix =>
      if text <= value { assert value == text + value[|text|..]; }
    case HasSuffix =>
      if IsSuffix(text, value) { assert value == value[..|value| - |text|] + text; }
      if head :| value == head + text { assert value[|value| - |text|..] == text; }
    case Contains =>
      if IsSubstring(text, value) {
        var i :| 0 <= i <= |value| && text <= value[i..];
        assert value == value[..i] + text + value[i..][|text|..];
      }
      if head, tail :| value == head + text + tail {
        assert value[|head|..] == text + tail;
      }
  }

  /** A leaf about a present, non-null value of admitted size decides exactly what it asserts, or is of another kind. */
  lemma {:induction false} PresentMeans(c: Condition, v: Value)
    requires IsLeaf(c) && !c.Exists? && !c.IsNull? && !v.Missing? && !v.Null? && (c.In? ==> c.values != [])
    ensures PresentMeaning(c, v) ==
            if !RightKind(c, v) then Done(StatusTypeMismatch)
            else if Asserts(c, v) then Done(StatusMatch)
            else Done(StatusNoMatch)
  {
    match c {
      case Equals(_, want) => KindsMean(v, want);
      case Compares(_, want, greater) =>
        KindsMean(v, want);
        CompareMeans(v, want);
      case In(_, values) =>
        KindsMean(v, values[0]);
        forall w ensures Equal(v, w) <==> v == w { KindsMean(v, w); }
      case StringTest(_, text, op) =>
        if v.Text? { StringHoldsMeans(op, text, v.text); }
      case _ =>
    }
  }

  /** The meaning of every valid leaf, in the facts of the request. */
  lemma {:induction false} LeafMeans(c: Condition, request: Request, maxSetSize: nat)
    requires IsLeaf(c) && (c.In? ==> c.values != [])
    ensures c.Exists? ==>
            MeaningOf(c, request, maxSetSize) ==
            Done(if exists v :: Fact(request, c.ref, v) then StatusMatch else StatusNoMatch)
    ensures c.IsNull? ==>
            MeaningOf(c, request, maxSetSize) == Done(if Fact(request, c.ref, Null) then StatusMatch else StatusNoMatch)
    ensures !c.Exists? && !c.IsNull? && !(exists v :: Fact(request, c.ref, v)) ==>
            MeaningOf(c, request, maxSetSize) == Done(StatusMissing)
    ensures !c.Exists? && !c.IsNull? && Fact(request, c.ref, Null) ==>
            MeaningOf(c, request, maxSetSize) == Done(if c.Equals? && c.want.Null? then StatusMatch else StatusNull)
    ensures !c.Exists? && !c.IsNull? ==>
            forall v :: Fact(request, c.ref, v) && !v.Null? ==>
            MeaningOf(c, request, maxSetSize) ==
            if v.Strings? && |v.items| > maxSetSize then Oversize
            else if !RightKind(c, v) then Done(StatusTypeMismatch)
            else if Asserts(c, v) then Done(StatusMatch)
            else Done(StatusNoMatch)
  {
    var got := Lookup(request, c.ref);
    LookupMeans(request, c.ref, got);
    forall v ensures Fact(request, c.ref, v) <==> v == got && v != Missing {
      LookupMeans(request, c.ref, v);
    }
    if !c.Exists? && !c.IsNull? && !got.Missing? && !got.Null? { PresentMeans(c, got); }
  }

  // ---- Connectives ----

  /** Negation exchanges match and no match and passes everything else on. */
  lemma NotMeans(c: Condition, request: Request, maxSetSize: nat)
    ensures MeaningOf(Not(c), request, maxSetSize) == Done(StatusMatch) <==>
            MeaningOf(c, request, maxSetSize) == Done(StatusNoMatch)
    ensures MeaningOf(Not(c), request, maxSetSize) == Done(StatusNoMatch) <==>
            MeaningOf(c, request, maxSetSize) == Done(StatusMatch)
    ensures MeaningOf(c, request, maxSetSize) !in {Done(StatusMatch), Done(StatusNoMatch)} ==>
            MeaningOf(Not(c), request, maxSetSize) == MeaningOf(c, request, maxSetSize)
  {
  }

  /** Double negation. */
  lemma NotNotMeans(c: Condition, request: Request, maxSetSize: nat)
    ensures MeaningOf(Not(Not(c)), request, maxSetSize) == MeaningOf(c, request, maxSetSize)
  {
    NotMeans(c, request, maxSetSize);
    NotMeans(Not(c), request, maxSetSize);
  }

  /** `i` is the first child that does not match. */
  ghost predicate FirstUnmatched(cs: seq<Condition>, i: int, request: Request, maxSetSize: nat) {
    && 0 <= i < |cs| && MeaningOf(cs[i], request, maxSetSize) != Done(StatusMatch)
    && forall j :: 0 <= j < i ==> MeaningOf(cs[j], request, maxSetSize) == Done(StatusMatch)
  }

  /** A conjunction that does not match says what its first child that does not match says. */
  lemma {:induction false} AllMeans(cs: seq<Condition>, i: nat, request: Request, maxSetSize: nat)
    requires FirstUnmatched(cs, i, request, maxSetSize)
    ensures MeaningOf(All(cs), request, maxSetSize) == MeaningOf(cs[i], request, maxSetSize)
    ensures Visits(All(cs), request, maxSetSize) == 1 + SumOfVisits(cs[..i + 1], request, maxSetSize)
  {
    AllFrom(cs, i, request, maxSetSize);
  }

  function SumOfVisits(cs: seq<Condition>, request: Request, maxSetSize: nat): nat {
    if cs == [] then 0 else Visits(cs[0], request, maxSetSize) + SumOfVisits(cs[1..], request, maxSetSize)
  }

  lemma {:induction false} AllFrom(cs: seq<Condition>, i: nat, request: Request, maxSetSize: nat)
    requires FirstUnmatched(cs, i, request, maxSetSize)
    ensures AllMeaning(cs, request, maxSetSize) == MeaningOf(cs[i], request, maxSetSize)
    ensures AllVisits(cs, request, maxSetSize) == SumOfVisits(cs[..i + 1], request, maxSetSize)
  {
    assert cs[..i + 1][1..] == cs[1..][..i];
    if i > 0 {
      assert forall j :: 0 <= j < |cs| - 1 ==> cs[1..][j] == cs[j + 1];
      AllFrom(cs[1..], i - 1, request, maxSetSize);
    } else {
      assert SumOfVisits(cs[..1][1..], request, maxSetSize) == 0;
    }
  }

  /** The child ends a disjunction: it matches or fails. */
  ghost predicate Ends(c: Condition, request: Request, maxSetSize: nat) {
    MeaningOf(c, request, maxSetSize) == Done(StatusMatch) || !MeaningOf(c, request, maxSetSize).Done?
  }

  /** `i` is the first child that ends the disjunction. */
  ghost predicate FirstEnding(cs: seq<Condition>, i: int, request: Request, maxSetSize: nat) {
    && 0 <= i < |cs| && Ends(cs[i], request, maxSetSize)
    && forall j :: 0 <= j < i ==> !Ends(cs[j], request, maxSetSize)
  }

  /** `i` is the first child whose status is a diagnostic. */
  ghost predicate FirstDiagnostic(cs: seq<Condition>, i: int, request: Request, maxSetSize: nat) {
    && 0 <= i < |cs| && MeaningOf(cs[i], request, maxSetSize) != Done(StatusNoMatch)
    && forall j :: 0 <= j < i ==> MeaningOf(cs[j], request, maxSetSize) == Done(StatusNoMatch)
  }

  /** A disjunction says what its first matching or failing child says. */
  lemma {:induction false} AnyEnds(cs: seq<Condition>, i: nat, request: Request, maxSetSize: nat)
    requires FirstEnding(cs, i, request, maxSetSize)
    ensures AnyMeaning(cs, request, maxSetSize) == MeaningOf(cs[i], request, maxSetSize)
    ensures AnyVisits(cs, request, maxSetSize) == SumOfVisits(cs[..i + 1], request, maxSetSize)
  {
    assert cs[..i + 1][1..] == cs[1..][..i];
    if i > 0 {
      assert forall j :: 0 <= j < |cs| - 1 ==> cs[1..][j] == cs[j + 1];
      assert !Ends(cs[0], request, maxSetSize);
      AnyEnds(cs[1..], i - 1, request, maxSetSize);
    } else {
      assert SumOfVisits(cs[..1][1..], request, maxSetSize) == 0;
    }
  }

  /** With no such child it visits all, and says the first diagnostic status or no match. */
  lemma {:induction false} AnyUndecided(cs: seq<Condition>, request: Request, maxSetSize: nat)
    requires forall j :: 0 <= j < |cs| ==> !Ends(cs[j], request, maxSetSize)
    ensures AnyVisits(cs, request, maxSetSize) == SumOfVisits(cs, request, maxSetSize)
    ensures forall i :: FirstDiagnostic(cs, i, request, maxSetSize) ==>
            AnyMeaning(cs, request, maxSetSize) == MeaningOf(cs[i], request, maxSetSize)
    ensures AnyMeaning(cs, request, maxSetSize) == Done(StatusNoMatch) <==>
            forall j :: 0 <= j < |cs| ==> MeaningOf(cs[j], request, maxSetSize) == Done(StatusNoMatch)
  {
    if cs != [] {
      var rest := cs[1..];
      assert forall j :: 0 <= j < |rest| ==> rest[j] == cs[j + 1];
      AnyUndecided(rest, request, maxSetSize);
      assert !Ends(cs[0], request, maxSetSize);
      UndecidedMeaning(rest, request, maxSetSize);
      forall i | FirstDiagnostic(cs, i, request, maxSetSize)
        ensures AnyMeaning(cs, request, maxSetSize) == MeaningOf(cs[i], request, maxSetSize)
      {
        if i > 0 { assert FirstDiagnostic(rest, i - 1, request, maxSetSize); }
      }
      assert AnyMeaning(cs, request, maxSetSize) == Done(StatusNoMatch) ==>
             forall j :: 0 <= j < |cs| ==> MeaningOf(cs[j], request, maxSetSize) == Done(StatusNoMatch) by {
        if AnyMeaning(cs, request, maxSetSize) == Done(StatusNoMatch) {
          forall j | 0 <= j < |cs| ensures MeaningOf(cs[j], request, maxSetSize) == Done(StatusNoMatch) {
            if j > 0 { assert cs[j] == rest[j - 1]; }
          }
        }
      }
    }
  }

  lemma {:induction false} UndecidedMeaning(cs: seq<Condition>, request: Request, maxSetSize: nat)
    requires forall j :: 0 <= j < |cs| ==> !Ends(cs[j], request, maxSetSize)
    ensures AnyMeaning(cs, request, maxSetSize).Done? && AnyMeaning(cs, request, maxSetSize).status != StatusMatch
  {
    if cs != [] {
      assert forall j :: 0 <= j < |cs| - 1 ==> cs[1..][j] == cs[j + 1];
      UndecidedMeaning(cs[1..], request, maxSetSize);
      assert !Ends(cs[0], request, maxSetSize);
    }
  }
}
