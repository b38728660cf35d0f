/**
 * The Filter model of src/common/models/filter/filter.ts: an immutable, ordered list of clauses,
 * each binding an attribute expression to its first action.  Every edit returns a new Filter.
 */
module Filters {
  import opened Results
  import General

  /** An attribute expression a clause is bound to (such as a reference `$country`); only equality is used. */
  type Attribute(==, !new)

  /** A value held in a value-set literal. */
  type Value(==, !new)

  /** A time range from `start` to `end`, instants in milliseconds. */
  datatype TimeRange = TimeRange(start: int, end: int)

  /** The literal operand of a clause's first action: a set of values or a time range. */
  datatype Literal = SetLit(values: set<Value>) | RangeLit(range: TimeRange)

  /** The first action of a clause: `in` a literal, or any other action (named by its operator) on a literal. */
  datatype Action = In(lit: Literal) | Other(op: string, lit: Literal)

  /** One clause: an attribute expression followed by its first action. */
  datatype Clause = Clause(attr: Attribute, action: Action)

  /** A filter: the conjunction of its clauses, in order. */
  datatype Filter = Filter(clauses: seq<Clause>)

  /** The filter with no clauses, which filters nothing out. */
  const EMPTY: Filter := Filter([])

  /** The message of the error thrown when a value operation meets a clause that is not an `in`. */
  const INVALID_CLAUSE: string := "invalid clause"

  /** The message of the error thrown when a conjunct of a parsed expression is not a clause. */
  const MUST_BE_A_CHAIN: string := "must be a chain"

  /** Some clause of `cs` is bound to `attr`. */
  predicate Mentions(cs: seq<Clause>, attr: Attribute) {
    exists i :: 0 <= i < |cs| && cs[i].attr == attr
  }

  /** At most one clause per attribute: the invariant the edits by attribute keep. */
  predicate UniqueAttrs(cs: seq<Clause>) {
    forall i, j :: 0 <= i < j < |cs| ==> cs[i].attr != cs[j].attr
  }

  // ---------------------------------------------------------------------------------------------
  // Helpers on the clause list (the Immutable.js operations the source relies on)
  // ---------------------------------------------------------------------------------------------

  /**
   * `List.delete(index)` for the indices the source passes: a position of the list, or -1, which
   * Immutable.js counts from the end and so removes the last clause (nothing, on an empty list).
   */
  function Delete(cs: seq<Clause>, index: int): (r: seq<Clause>)
    requires -1 <= index < |cs|
    ensures cs == [] ==> r == []
    ensures cs != [] ==> var k := if index == -1 then |cs| - 1 else index;
                         |r| == |cs| - 1 && r == cs[..k] + cs[k + 1..]
  {
    if index == -1 then (if cs == [] then [] else cs[..|cs| - 1])
    else cs[..index] + cs[index + 1..]
  }

  /** The clauses of `cs` other than `clause`, in their order. */
  function Without(cs: seq<Clause>, clause: Clause): (r: seq<Clause>)
    ensures forall i :: 0 <= i < |r| ==> r[i] != clause
    ensures |r| <= |cs|
    decreases |cs|
  {
    if cs == [] then []
    else (if cs[0] == clause then [] else [cs[0]]) + Without(cs[1..], clause)
  }

  /** Dropping the copies of `clause` removes exactly its occurrences and nothing else. */
  lemma {:induction false} WithoutCounts(cs: seq<Clause>, clause: Clause)
    ensures multiset(Without(cs, clause)) == multiset(cs)[clause := 0]
    ensures |Without(cs, clause)| == |cs| - multiset(cs)[clause]
    decreases |cs|
  {
    if cs != [] {
      WithoutCounts(cs[1..], clause);
      assert cs == [cs[0]] + cs[1..];
    }
  }

  /**
   * withholdClause: keeps the clause at `allowIndex` and every clause not equal to `clause`; every
   * other copy of `clause` is dropped.
   */
  function WithholdClause(cs: seq<Clause>, clause: Clause, allowIndex: int): (r: seq<Clause>)
    ensures |r| <= |cs|
    ensures forall i :: 0 <= i < |r| && r[i] == clause ==> 0 <= allowIndex < |cs| && cs[allowIndex] == clause
    decreases |cs|
  {
    if cs == [] then []
    else (if allowIndex == 0 || cs[0] != clause then [cs[0]] else []) + WithholdClause(cs[1..], clause, allowIndex - 1)
  }

  /** With no position to spare, withholdClause drops every copy of `clause`. */
  lemma {:induction false} WithholdClauseNoAllowance(cs: seq<Clause>, clause: Clause, allowIndex: int)
    requires !(0 <= allowIndex < |cs|)
    ensures WithholdClause(cs, clause, allowIndex) == Without(cs, clause)
    decreases |cs|
  {
    if cs != [] {
      WithholdClauseNoAllowance(cs[1..], clause, allowIndex - 1);
    }
  }

  /**
   * The clauses withholdClause keeps: the copies of `clause` are dropped on either side of
   * `allowIndex`, the clause at `allowIndex` stays, and the rest keep their order.
   */
  lemma {:induction false} WithholdClauseShape(cs: seq<Clause>, clause: Clause, allowIndex: int)
    requires 0 <= allowIndex < |cs|
    ensures WithholdClause(cs, clause, allowIndex)
            == Without(cs[..allowIndex], clause) + [cs[allowIndex]] + Without(cs[allowIndex + 1..], clause)
    decreases |cs|
  {
    var rest := cs[1..];
    if allowIndex == 0 {
      WithholdClauseNoAllowance(rest, clause, -1);
      assert rest == cs[allowIndex + 1..] && cs[..allowIndex] == [];
      assert WithholdClause(cs, clause, allowIndex) == [cs[0]] + Without(rest, clause);
    } else {
      WithholdClauseShape(rest, clause, allowIndex - 1);
      var head := if cs[0] != clause then [cs[0]] else [];
      var x := cs[allowIndex];
      var left, right := Without(rest[..allowIndex - 1], clause), Without(rest[allowIndex..], clause);
      assert WithholdClause(cs, clause, allowIndex) == head + WithholdClause(rest, clause, allowIndex - 1);
      assert WithholdClause(rest, clause, allowIndex - 1) == (left + [x]) + right by {
        assert x == rest[allowIndex - 1];
      }
      assert Without(cs[..allowIndex], clause) == head + left by {
        var before := cs[..allowIndex];
        assert before[0] == cs[0] && before[1..] == rest[..allowIndex - 1];
      }
      assert Without(cs[allowIndex + 1..], clause) == right by {
        assert cs[allowIndex + 1..] == rest[allowIndex..];
      }
      var mid := left + [x];
      assert head + mid == (head + left) + [x];
      assert head + (mid + right) == (head + mid) + right;
    }
  }

  /**
   * swapClause: every clause equal to `clause`, except the one at `allowIndex`, becomes `other`;
   * all other positions are untouched.
   */
  function SwapClause(cs: seq<Clause>, clause: Clause, other: Clause, allowIndex: int): (r: seq<Clause>)
    ensures |r| == |cs|
    ensures forall i :: 0 <= i < |cs| && (i == allowIndex || cs[i] != clause) ==> r[i] == cs[i]
    ensures forall i :: 0 <= i < |cs| && i != allowIndex && cs[i] == clause ==> r[i] == other
  {
    seq(|cs|, i requires 0 <= i < |cs| => if i == allowIndex || cs[i] != clause then cs[i] else other)
  }

  // ---------------------------------------------------------------------------------------------
  // Lookup
  // ---------------------------------------------------------------------------------------------

  /** indexOfClause: the position of the first clause bound to `attr`, or -1 when there is none. */
  function IndexOfClause(f: Filter, attr: Attribute): (i: int)
    ensures -1 <= i < |f.clauses|
    ensures i == -1 <==> !Mentions(f.clauses, attr)
    ensures i != -1 ==> f.clauses[i].attr == attr
    ensures forall j :: 0 <= j < i ==> f.clauses[j].attr != attr
    decreases |f.clauses|
  {
    if f.clauses == [] then -1
    else if f.clauses[0].attr == attr then 0
    else
      var k := IndexOfClause(Filter(f.clauses[1..]), attr);
      if k == -1 then -1 else k + 1
  }

  /** clauseForExpression: the first clause bound to `attr`, if any. */
  function ClauseForExpression(f: Filter, attr: Attribute): (r: Option<Clause>)
    ensures r.None? <==> !Mentions(f.clauses, attr)
    ensures r.Some? ==> r.value == f.clauses[IndexOfClause(f, attr)]
    decreases |f.clauses|
  {
    if f.clauses == [] then None
    else if f.clauses[0].attr == attr then Some(f.clauses[0])
    else ClauseForExpression(Filter(f.clauses[1..]), attr)
  }

  /** filteredOn: some clause is bound to `attr`. */
  function FilteredOn(f: Filter, attr: Attribute): (r: bool)
    ensures r <==> Mentions(f.clauses, attr)
  {
    IndexOfClause(f, attr) != -1
  }

  /**
   * What the value operations need of the clause bound to `attr`: if it is an `in` clause, its
   * literal is a set (a time range there would make the source fail on a missing set method).
   */
  predicate InClauseIsSet(f: Filter, attr: Attribute) {
    var i := IndexOfClause(f, attr);
    i == -1 || !f.clauses[i].action.In? || f.clauses[i].action.lit.SetLit?
  }

  /**
   * filteredOnValue: whether the set of the `in` clause bound to `attr` holds `value`; false when
   * no clause is bound to it, and an error when that clause's first action is not an `in`.
   */
  function FilteredOnValue(f: Filter, attr: Attribute, value: Value): (r: Result<bool>)
    requires InClauseIsSet(f, attr)
    ensures !Mentions(f.clauses, attr) ==> r == Ok(false)
    ensures r.Err? <==> Mentions(f.clauses, attr) && f.clauses[IndexOfClause(f, attr)].action.Other?
    ensures r.Err? ==> r.message == INVALID_CLAUSE
    ensures r == Ok(true) <==>
              var c := ClauseForExpression(f, attr);
              c.Some? && c.value.action.In? && value in c.value.action.lit.values
  {
    var i := IndexOfClause(f, attr);
    if i == -1 then Ok(false)
    else match f.clauses[i].action
      case In(lit) => Ok(value in lit.values)
      case Other(_, _) => Err(INVALID_CLAUSE)
  }

  // ---------------------------------------------------------------------------------------------
  // Value-set edits
  // ---------------------------------------------------------------------------------------------

  /**
   * addValue: with no clause bound to `attr`, appends `attr in {value}`; otherwise rewrites that
   * clause, in place, to the `in` of its set with `value` added, or fails when it is not an `in`.
   */
  function AddValue(f: Filter, attr: Attribute, value: Value): (r: Result<Filter>)
    requires InClauseIsSet(f, attr)
    ensures var cs, i := f.clauses, IndexOfClause(f, attr);
            i == -1 ==> r.Ok? && |r.value.clauses| == |cs| + 1 && r.value.clauses[..|cs|] == cs
                        && r.value.clauses[|cs|] == Clause(attr, In(SetLit({value})))
    ensures var cs, i := f.clauses, IndexOfClause(f, attr);
            i != -1 && cs[i].action.Other? ==> r == Err(INVALID_CLAUSE)
    ensures var cs, i := f.clauses, IndexOfClause(f, attr);
            i != -1 && cs[i].action.In? ==>
              r.Ok? && |r.value.clauses| == |cs|
              && r.value.clauses[i] == Clause(attr, In(SetLit(cs[i].action.lit.values + {value})))
              && forall j :: 0 <= j < |cs| && j != i ==> r.value.clauses[j] == cs[j]
  {
    var cs, i := f.clauses, IndexOfClause(f, attr);
    if i == -1 then Ok(Filter(cs + [Clause(attr, In(SetLit({value})))]))
    else match cs[i].action
      case In(lit) => Ok(Filter(cs[i := Clause(attr, In(SetLit(lit.values + {value})))]))
      case Other(_, _) => Err(INVALID_CLAUSE)
  }

  /** remove: drops the first clause bound to `attr`; the same filter when there is none. */
  function Remove(f: Filter, attr: Attribute): (r: Filter)
    ensures !Mentions(f.clauses, attr) ==> r == f
    ensures var i := IndexOfClause(f, attr);
            i != -1 ==> r.clauses == f.clauses[..i] + f.clauses[i + 1..]
  {
    var i := IndexOfClause(f, attr);
    if i == -1 then f else Filter(Delete(f.clauses, i))
  }

  /**
   * removeValue: the same filter when no clause is bound to `attr`; otherwise `value` leaves that
   * clause's set, and the clause is dropped when the set becomes empty or rewritten in place when
   * not; an error when the clause is not an `in`.
   */
  function RemoveValue(f: Filter, attr: Attribute, value: Value): (r: Result<Filter>)
    requires InClauseIsSet(f, attr)
    ensures !Mentions(f.clauses, attr) ==> r == Ok(f)
    ensures var cs, i := f.clauses, IndexOfClause(f, attr);
            i != -1 && cs[i].action.Other? ==> r == Err(INVALID_CLAUSE)
    ensures var cs, i := f.clauses, IndexOfClause(f, attr);
            i != -1 && cs[i].action.In? && cs[i].action.lit.values - {value} == {} ==>
              r == Ok(Filter(cs[..i] + cs[i + 1..]))
    ensures var cs, i := f.clauses, IndexOfClause(f, attr);
            i != -1 && cs[i].action.In? && cs[i].action.lit.values - {value} != {} ==>
              r.Ok? && |r.value.clauses| == |cs|
              && r.value.clauses[i] == Clause(attr, In(SetLit(cs[i].action.lit.values - {value})))
              && forall j :: 0 <= j < |cs| && j != i ==> r.value.clauses[j] == cs[j]
  {
    var cs, i := f.clauses, IndexOfClause(f, attr);
    if i == -1 then Ok(f)
    else match cs[i].action
      case In(lit) =>
        var newSet := lit.values - {value};
        if newSet == {} then Ok(Filter(cs[..i] + cs[i + 1..]))
        else Ok(Filter(cs[i := Clause(attr, In(SetLit(newSet)))]))
      case Other(_, _) => Err(INVALID_CLAUSE)
  }

  /** toggleValue: removes `value` when the filter holds it for `attr`, adds it otherwise. */
  function ToggleValue(f: Filter, attr: Attribute, value: Value): (r: Result<Filter>)
    requires InClauseIsSet(f, attr)
    ensures FilteredOnValue(f, attr, value).Err? ==> r == Err(INVALID_CLAUSE)
    ensures FilteredOnValue(f, attr, value) == Ok(true) ==> r == RemoveValue(f, attr, value)
    ensures FilteredOnValue(f, attr, value) == Ok(false) ==> r == AddValue(f, attr, value)
  {
    match FilteredOnValue(f, attr, value)
    case Err(m) => Err(m)
    case Ok(b) => if b then RemoveValue(f, attr, value) else AddValue(f, attr, value)
  }

  /** The set a value list denotes. */
  function SetOf(values: seq<Value>): (s: set<Value>)
    ensures forall v :: v in s <==> v in values
  {
    set v | v in values
  }

  /**
   * setValues, as written: a non-empty list replaces the clause bound to `attr` in place, or is
   * appended, as `attr in values`; an empty list deletes at the found index, which is -1 when no
   * clause is bound to `attr`, and so deletes the LAST clause of the filter.
   */
  function SetValues(f: Filter, attr: Attribute, values: seq<Value>): (r: Filter)
    ensures var cs, i := f.clauses, IndexOfClause(f, attr);
            values != [] && i == -1 ==> r.clauses == cs + [Clause(attr, In(SetLit(SetOf(values))))]
    ensures var cs, i := f.clauses, IndexOfClause(f, attr);
            values != [] && i != -1 ==> r.clauses == cs[i := Clause(attr, In(SetLit(SetOf(values))))]
    ensures var cs, i := f.clauses, IndexOfClause(f, attr);
            values == [] && i != -1 ==> r.clauses == cs[..i] + cs[i + 1..]
    ensures var cs, i := f.clauses, IndexOfClause(f, attr);
            values == [] && i == -1 && cs != [] ==> r.clauses == cs[..|cs| - 1]
    ensures values == [] && f.clauses == [] ==> r.clauses == []
  {
    var cs, i := f.clauses, IndexOfClause(f, attr);
    if values != [] then
      var newOperand := Clause(attr, In(SetLit(SetOf(values))));
      if i == -1 then Filter(cs + [newOperand]) else Filter(cs[i := newOperand])
    else if i == -1 then Filter(Delete(cs, -1))
    else Filter(Delete(cs, i))
  }

  /** setValues as evidently intended: an empty list removes the clause bound to `attr`, if any, and nothing else. */
  function SetValuesCorrected(f: Filter, attr: Attribute, values: seq<Value>): (r: Filter)
    ensures values != [] ==> r == SetValues(f, attr, values)
    ensures values == [] ==> r == Remove(f, attr)
  {
    if values == [] then Remove(f, attr) else SetValues(f, attr, values)
  }

  /** getValues: the literal of the first clause bound to `attr`, if any. */
  function GetValues(f: Filter, attr: Attribute): (r: Option<Literal>)
    ensures r.None? <==> !Mentions(f.clauses, attr)
    ensures r.Some? ==> r.value == ClauseForExpression(f, attr).value.action.lit
  {
    var i := IndexOfClause(f, attr);
    if i == -1 then None else Some(f.clauses[i].action.lit)
  }

  // ---------------------------------------------------------------------------------------------
  // Range edits
  // ---------------------------------------------------------------------------------------------

  /** setTimeRange: `attr in range` replaces the clause bound to `attr` in place, or is appended. */
  function SetTimeRange(f: Filter, attr: Attribute, range: TimeRange): (r: Filter)
    ensures var cs, i := f.clauses, IndexOfClause(f, attr);
            i == -1 ==> |r.clauses| == |cs| + 1 && r.clauses[..|cs|] == cs
                        && r.clauses[|cs|] == Clause(attr, In(RangeLit(range)))
    ensures var cs, i := f.clauses, IndexOfClause(f, attr);
            i != -1 ==> |r.clauses| == |cs| && r.clauses[i] == Clause(attr, In(RangeLit(range)))
                        && forall j :: 0 <= j < |cs| && j != i ==> r.clauses[j] == cs[j]
  {
    var cs, i := f.clauses, IndexOfClause(f, attr);
    var newOperand := Clause(attr, In(RangeLit(range)));
    if i == -1 then Filter(cs + [newOperand]) else Filter(cs[i := newOperand])
  }

  /**
   * getTimeRange: the literal of the first clause bound to `attr`, if any.  The source performs
   * the same lookup as getValues; only the type its callers expect differs.
   */
  function GetTimeRange(f: Filter, attr: Attribute): (r: Option<Literal>)
    ensures r.None? <==> !Mentions(f.clauses, attr)
    ensures r.Some? ==> r.value == ClauseForExpression(f, attr).value.action.lit
  {
    var i := IndexOfClause(f, attr);
    if i == -1 then None else Some(f.clauses[i].action.lit)
  }

  /** getSingleValue: the literal of the only clause, when there is exactly one. */
  function GetSingleValue(f: Filter): (r: Option<Literal>)
    ensures r.Some? <==> |f.clauses| == 1
    ensures r.Some? ==> r.value == f.clauses[0].action.lit
  {
    if |f.clauses| != 1 then None else Some(f.clauses[0].action.lit)
  }

  // ---------------------------------------------------------------------------------------------
  // Whole-clause edits
  // ---------------------------------------------------------------------------------------------

  /**
   * What setClause computes: every clause bound to the attribute of `clause` is replaced by it,
   * in place; when there is none, `clause` is appended.
   */
  function WithClause(f: Filter, clause: Clause): (r: Filter)
    ensures var cs := f.clauses;
            |r.clauses| == (if Mentions(cs, clause.attr) then |cs| else |cs| + 1)
    ensures forall j :: 0 <= j < |f.clauses| ==>
              r.clauses[j] == if f.clauses[j].attr == clause.attr then clause else f.clauses[j]
    ensures !Mentions(f.clauses, clause.attr) ==> r.clauses[|f.clauses|] == clause
  {
    var cs := f.clauses;
    var replaced := seq(|cs|, j requires 0 <= j < |cs| => if cs[j].attr == clause.attr then clause else cs[j]);
    if Mentions(cs, clause.attr) then Filter(replaced) else Filter(replaced + [clause])
  }

  /**
   * setClause: maps over the clauses, replacing those bound to the attribute of `clause` and noting
   * that one was replaced; appends `clause` when none was.
   */
  method SetClause(f: Filter, clause: Clause) returns (r: Filter)
    ensures r == WithClause(f, clause)
  {
    var added := false;
    var newOperands: seq<Clause> := [];
    var i := 0;
    while i < |f.clauses|
      invariant 0 <= i <= |f.clauses|
      invariant |newOperands| == i
      invariant forall j :: 0 <= j < i ==>
                  newOperands[j] == if f.clauses[j].attr == clause.attr then clause else f.clauses[j]
      invariant added <==> Mentions(f.clauses[..i], clause.attr)
    {
      var c := f.clauses[i];
      if c.attr == clause.attr {
        added := true;
        newOperands := newOperands + [clause];
      } else {
        newOperands := newOperands + [c];
      }
      assert f.clauses[..i + 1] == f.clauses[..i] + [c];
      i := i + 1;
    }
    assert f.clauses[..i] == f.clauses;
    if !added {
      newOperands := newOperands + [clause];
    }
    r := Filter(newOperands);
  }

  /** What applyDelta computes: `WithClause` folded over the delta's clauses, in their order. */
  function DeltaApplied(f: Filter, delta: seq<Clause>): (r: Filter)
    decreases |delta|
  {
    if delta == [] then f
    else WithClause(DeltaApplied(f, delta[..|delta| - 1]), delta[|delta| - 1])
  }

  /** applyDelta: sets each clause of `delta` on the accumulated filter, one after the other. */
  method ApplyDelta(f: Filter, delta: Filter) returns (r: Filter)
    ensures r == DeltaApplied(f, delta.clauses)
  {
    r := f;
    var i := 0;
    while i < |delta.clauses|
      invariant 0 <= i <= |delta.clauses|
      invariant r == DeltaApplied(f, delta.clauses[..i])
    {
      assert delta.clauses[..i + 1][..i] == delta.clauses[..i];
      r := SetClause(r, delta.clauses[i]);
      i := i + 1;
    }
    assert delta.clauses[..i] == delta.clauses;
  }

  // ---------------------------------------------------------------------------------------------
  // Positional edits
  // ---------------------------------------------------------------------------------------------

  /** Dropping the copies of a clause distributes over concatenation. */
  lemma {:induction false} WithoutAppend(a: seq<Clause>, b: seq<Clause>, clause: Clause)
    ensures Without(a + b, clause) == Without(a, clause) + Without(b, clause)
    decreases |a|
  {
    if a != [] {
      WithoutAppend(a[1..], b, clause);
      assert (a + b)[0] == a[0] && (a + b)[1..] == a[1..] + b;
      var head := if a[0] == clause then [] else [a[0]];
      assert Without(a + b, clause) == head + Without(a[1..] + b, clause);
      assert Without(a, clause) == head + Without(a[1..], clause);
    } else {
      assert a + b == b;
    }
  }

  /**
   * Where `List.splice(index, 0, x)` puts `x` in a list of `size` clauses: a negative index counts
   * from the end (stopping at the front), an index past the end stops at the end.
   */
  function SplicePoint(index: int, size: nat): (p: nat)
    ensures p <= size
    ensures 0 <= index <= size ==> p == index
  {
    if index < 0 then (if size + index < 0 then 0 else size + index)
    else if index > size then size
    else index
  }

  /**
   * insertByIndex: `clause` is spliced in at `index`, and every copy of it other than the one at
   * `index` is withheld.  Within the list, the other clauses keep their relative order around it.
   * Outside `0..length`, the splice clamps the index but withholdClause compares positions with
   * the raw index, which matches none, so every copy is dropped, the new one included.
   */
  function InsertByIndex(f: Filter, index: int, clause: Clause): (r: Filter)
    ensures 0 <= index <= |f.clauses| ==>
              r.clauses == Without(f.clauses[..index], clause) + [clause] + Without(f.clauses[index..], clause)
    ensures !(0 <= index <= |f.clauses|) ==> r.clauses == Without(f.clauses, clause)
  {
    var cs := f.clauses;
    var p := SplicePoint(index, |cs|);
    var spliced := cs[..p] + [clause] + cs[p..];
    if 0 <= index <= |cs| then
      SplicedKept(cs, clause, p);
      Filter(WithholdClause(spliced, clause, index))
    else
      SplicedWithheld(cs, clause, p, index);
      Filter(WithholdClause(spliced, clause, index))
  }

  /** Withholding a clause spliced in at `p`, allowing position `p`, keeps it between the others. */
  lemma SplicedKept(cs: seq<Clause>, clause: Clause, p: int)
    requires 0 <= p <= |cs|
    ensures WithholdClause(cs[..p] + [clause] + cs[p..], clause, p)
            == Without(cs[..p], clause) + [clause] + Without(cs[p..], clause)
  {
    var spliced := cs[..p] + [clause] + cs[p..];
    assert spliced[..p] == cs[..p] && spliced[p + 1..] == cs[p..] && spliced[p] == clause;
    WithholdClauseShape(spliced, clause, p);
  }

  /** Withholding a clause spliced in at `p`, allowing no position, drops every copy, the new one too. */
  lemma SplicedWithheld(cs: seq<Clause>, clause: Clause, p: int, allowIndex: int)
    requires 0 <= p <= |cs| && !(0 <= allowIndex <= |cs|)
    ensures WithholdClause(cs[..p] + [clause] + cs[p..], clause, allowIndex) == Without(cs, clause)
  {
    var spliced := cs[..p] + [clause] + cs[p..];
    WithholdClauseNoAllowance(spliced, clause, allowIndex);
    WithoutAppend(cs[..p] + [clause], cs[p..], clause);
    WithoutAppend(cs[..p], [clause], clause);
    WithoutAppend(cs[..p], cs[p..], clause);
    assert cs == cs[..p] + cs[p..];
    assert Without([clause], clause) == [];
  }

  /**
   * replaceByIndex: at the end of the list, an insertion; otherwise `replace` takes position
   * `index`, and any other position holding a clause equal to `replace` receives the clause that
   * was at `index` (the two are swapped).  A negative index reads the replaced clause counting
   * from the end, while the positional rewrite compares with the raw index and so changes
   * nothing: every copy of `replace` becomes that clause.
   */
  function ReplaceByIndex(f: Filter, index: int, replace: Clause): (r: Filter)
    requires -|f.clauses| <= index <= |f.clauses|
    ensures index == |f.clauses| ==> r == InsertByIndex(f, index, replace)
    ensures 0 <= index < |f.clauses| ==>
              |r.clauses| == |f.clauses| && r.clauses[index] == replace
              && forall j :: 0 <= j < |f.clauses| && j != index ==>
                   r.clauses[j] == if f.clauses[j] == replace then f.clauses[index] else f.clauses[j]
    ensures index < 0 ==>
              |r.clauses| == |f.clauses|
              && forall j :: 0 <= j < |f.clauses| ==>
                   r.clauses[j] == if f.clauses[j] == replace then f.clauses[|f.clauses| + index] else f.clauses[j]
  {
    var cs := f.clauses;
    if index == |cs| then InsertByIndex(f, index, replace)
    else
      var replacedClause := cs[if index < 0 then |cs| + index else index];
      var mapped := seq(|cs|, i requires 0 <= i < |cs| => if i == index then replace else cs[i]);
      Filter(SwapClause(mapped, replace, replacedClause, index))
  }

  // ---------------------------------------------------------------------------------------------
  // Re-scoping and widening
  // ---------------------------------------------------------------------------------------------

  /**
   * What re-scoping keeps of one clause: the clause itself when its attribute is a dimension;
   * otherwise, when both time attributes are given and the clause is on the old one, the same
   * action bound to the new time attribute; otherwise nothing.
   */
  function Kept(c: Clause, dimensions: seq<Attribute>, timeAttribute: Option<Attribute>,
                oldTimeAttribute: Option<Attribute>): (r: seq<Clause>)
    ensures |r| <= 1
    ensures c.attr in dimensions ==> r == [c]
    ensures c.attr !in dimensions ==>
              r == if timeAttribute.Some? && oldTimeAttribute == Some(c.attr) then [Clause(timeAttribute.value, c.action)] else []
  {
    if c.attr in dimensions then [c]
    else if timeAttribute.Some? && oldTimeAttribute.Some? && oldTimeAttribute.value == c.attr then
      [Clause(timeAttribute.value, c.action)]
    else []
  }

  /** What constrainToDimensions builds: the clauses each keep, in order. */
  function Rescoped(cs: seq<Clause>, dimensions: seq<Attribute>, timeAttribute: Option<Attribute>,
                    oldTimeAttribute: Option<Attribute>): (r: seq<Clause>)
    ensures |r| <= |cs|
    decreases |cs|
  {
    if cs == [] then []
    else Rescoped(cs[..|cs| - 1], dimensions, timeAttribute, oldTimeAttribute)
         + Kept(cs[|cs| - 1], dimensions, timeAttribute, oldTimeAttribute)
  }

  /** Some clause is bound to an attribute outside `dimensions` (the source's `hasChanged`). */
  predicate OffDimensions(cs: seq<Clause>, dimensions: seq<Attribute>)
    decreases |cs|
  {
    cs != [] && (OffDimensions(cs[..|cs| - 1], dimensions) || cs[|cs| - 1].attr !in dimensions)
  }

  /** OffDimensions holds exactly when some position holds a clause off the dimensions. */
  lemma {:induction false} OffDimensionsExists(cs: seq<Clause>, dimensions: seq<Attribute>)
    ensures OffDimensions(cs, dimensions) <==> exists j :: 0 <= j < |cs| && cs[j].attr !in dimensions
    decreases |cs|
  {
    if cs != [] {
      var init := cs[..|cs| - 1];
      OffDimensionsExists(init, dimensions);
      if OffDimensions(init, dimensions) {
        var j :| 0 <= j < |init| && init[j].attr !in dimensions;
        assert cs[j] == init[j];
      }
      forall j | 0 <= j < |cs| - 1 && cs[j].attr !in dimensions ensures OffDimensions(init, dimensions) {
        assert init[j] == cs[j];
      }
    }
  }

  /** Re-scoping one more clause of a prefix appends what that clause keeps. */
  lemma RescopedStep(cs: seq<Clause>, dimensions: seq<Attribute>, timeAttribute: Option<Attribute>,
                     oldTimeAttribute: Option<Attribute>, i: nat)
    requires i < |cs|
    ensures Rescoped(cs[..i + 1], dimensions, timeAttribute, oldTimeAttribute)
            == Rescoped(cs[..i], dimensions, timeAttribute, oldTimeAttribute)
               + Kept(cs[i], dimensions, timeAttribute, oldTimeAttribute)
    ensures OffDimensions(cs[..i + 1], dimensions) == (OffDimensions(cs[..i], dimensions) || cs[i].attr !in dimensions)
  {
    assert cs[..i + 1][..i] == cs[..i];
  }

  /**
   * constrainToDimensions: walks the clauses, keeping those on a dimension, rebinding a clause on
   * the old time attribute to the new one, and dropping the rest.  `changed` is true exactly when
   * the source builds a new Filter; when it is false the source returns the filter itself.
   */
  method ConstrainToDimensions(f: Filter, dimensions: seq<Attribute>, timeAttribute: Option<Attribute>,
                               oldTimeAttribute: Option<Attribute>) returns (r: Filter, changed: bool)
    ensures changed <==> exists j :: 0 <= j < |f.clauses| && f.clauses[j].attr !in dimensions
    ensures changed ==> r == Filter(Rescoped(f.clauses, dimensions, timeAttribute, oldTimeAttribute))
    ensures !changed ==> r == f
  {
    var hasChanged := false;
    var clauses: seq<Clause> := [];
    var i := 0;
    while i < |f.clauses|
      invariant 0 <= i <= |f.clauses|
      invariant clauses == Rescoped(f.clauses[..i], dimensions, timeAttribute, oldTimeAttribute)
      invariant hasChanged == OffDimensions(f.clauses[..i], dimensions)
    {
      var clause := f.clauses[i];
      ghost var kept := Kept(clause, dimensions, timeAttribute, oldTimeAttribute);
      RescopedStep(f.clauses, dimensions, timeAttribute, oldTimeAttribute, i);
      if clause.attr in dimensions {
        clauses := clauses + [clause];
      } else {
        hasChanged := true;
        if timeAttribute.Some? && oldTimeAttribute.Some? && oldTimeAttribute.value == clause.attr {
          clauses := clauses + [Clause(timeAttribute.value, clause.action)];
        } else {
          assert kept == [];
        }
      }
      assert clauses == Rescoped(f.clauses[..i], dimensions, timeAttribute, oldTimeAttribute) + kept;
      i := i + 1;
    }
    assert clauses == Rescoped(f.clauses, dimensions, timeAttribute, oldTimeAttribute) by {
      assert f.clauses[..i] == f.clauses;
    }
    assert hasChanged <==> exists j :: 0 <= j < |f.clauses| && f.clauses[j].attr !in dimensions by {
      assert f.clauses[..i] == f.clauses;
      OffDimensionsExists(f.clauses, dimensions);
    }
    r := if hasChanged then Filter(clauses) else f;
    changed := hasChanged;
  }

  /** The clause on the time attribute with its range moved one duration earlier at the start and later at the end. */
  function Widened(c: Clause, move: (int, int) -> int): (r: Clause)
    requires c.action.lit.RangeLit?
    ensures r.attr == c.attr && r.action.In? && r.action.lit.RangeLit?
    ensures r.action.lit.range == TimeRange(move(c.action.lit.range.start, -1), move(c.action.lit.range.end, 1))
  {
    var range := c.action.lit.range;
    Clause(c.attr, In(RangeLit(TimeRange(move(range.start, -1), move(range.end, 1)))))
  }

  /** Every clause bound to `attr` holds a time range (what overQuery reads from the time clause). */
  predicate RangeClauses(f: Filter, attr: Attribute) {
    forall j :: 0 <= j < |f.clauses| && f.clauses[j].attr == attr ==> f.clauses[j].action.lit.RangeLit?
  }

  /**
   * overQuery: the filter itself when no time attribute is given; otherwise a new filter in which
   * each clause on the time attribute has its range widened by one duration on each side, where
   * `move(t, n)` moves instant `t` by `n` durations in the timezone.
   */
  function OverQuery(f: Filter, move: (int, int) -> int, timeAttribute: Option<Attribute>): (r: Filter)
    requires timeAttribute.Some? ==> RangeClauses(f, timeAttribute.value)
    ensures timeAttribute.None? ==> r == f
    ensures |r.clauses| == |f.clauses|
    ensures forall j :: 0 <= j < |f.clauses| ==> r.clauses[j].attr == f.clauses[j].attr
    ensures forall j :: 0 <= j < |f.clauses| && Some(f.clauses[j].attr) != timeAttribute ==> r.clauses[j] == f.clauses[j]
    ensures forall j :: 0 <= j < |f.clauses| && Some(f.clauses[j].attr) == timeAttribute ==>
              r.clauses[j] == Widened(f.clauses[j], move)
  {
    if timeAttribute.None? then f
    else
      var cs := f.clauses;
      Filter(seq(|cs|, j requires 0 <= j < |cs| =>
        if cs[j].attr == timeAttribute.value then Widened(cs[j], move) else cs[j]))
  }

  // ---------------------------------------------------------------------------------------------
  // Conversion and equality
  // ---------------------------------------------------------------------------------------------

  /** The part of the expression language a filter converts to and from. */
  datatype Expression =
    | BoolLiteral(b: bool)            // a boolean literal; TRUE is BoolLiteral(true)
    | Chain(clause: Clause)           // one clause
    | And(operands: seq<Expression>)  // a conjunction

  /** Every operand is a clause. */
  predicate AllChains(es: seq<Expression>) {
    forall k :: 0 <= k < |es| ==> es[k].Chain?
  }

  /**
   * fromJS, after the interchange form is read into an expression: TRUE is the empty filter; a
   * conjunction gives its operands, any other expression itself; each must be a clause.
   */
  function FromExpression(e: Expression): (r: Result<Filter>)
    ensures e == BoolLiteral(true) ==> r == Ok(EMPTY)
    ensures e != BoolLiteral(true) && e.And? ==>
              if AllChains(e.operands)
              then r.Ok? && |r.value.clauses| == |e.operands|
                   && forall k :: 0 <= k < |e.operands| ==> r.value.clauses[k] == e.operands[k].clause
              else r == Err(MUST_BE_A_CHAIN)
    ensures e.BoolLiteral? && e != BoolLiteral(true) ==> r == Err(MUST_BE_A_CHAIN)
    ensures e.Chain? ==> r == Ok(Filter([e.clause]))
  {
    if e == BoolLiteral(true) then Ok(EMPTY)
    else if e.Chain? then Ok(Filter([e.clause]))
    else if e.And? && AllChains(e.operands) then
      Ok(Filter(seq(|e.operands|, k requires 0 <= k < |e.operands| => e.operands[k].clause)))
    else Err(MUST_BE_A_CHAIN)
  }

  /**
   * toExpression: TRUE for no clauses, the clause itself for one, the conjunction of the clauses
   * in order for more; reading it back gives the same filter.
   */
  function ToExpression(f: Filter): (e: Expression)
    ensures |f.clauses| == 0 <==> e == BoolLiteral(true)
    ensures FromExpression(e) == Ok(f)
  {
    var cs := f.clauses;
    if |cs| == 0 then BoolLiteral(true)
    else if |cs| == 1 then
      assert cs == [cs[0]];
      Chain(cs[0])
    else
      var e := And(seq(|cs|, k requires 0 <= k < |cs| => Chain(cs[k])));
      assert FromExpression(e).value.clauses == cs;
      e
  }

  /** equals: the other is a filter with the same clauses in the same order. */
  function Equals(f: Filter, other: Option<Filter>): (r: bool)
    ensures r <==> other == Some(f)
  {
    other.Some? && General.ListsEqual(Some(f.clauses), Some(other.value.clauses))
  }
}
