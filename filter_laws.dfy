/**
 * Properties of the Filter model: what each edit does to the clause bound to its attribute and to
 * the others, which edits keep "at most one clause per attribute", and which do not.
 */
module FilterLaws {
  import opened Results
  import opened Filters

  // ---------------------------------------------------------------------------------------------
  // Lookup facts
  // ---------------------------------------------------------------------------------------------

  /** A position holding `attr` with no earlier one is the index indexOfClause finds. */
  lemma FirstIndexIs(f: Filter, attr: Attribute, k: int)
    requires 0 <= k < |f.clauses| && f.clauses[k].attr == attr
    requires forall j :: 0 <= j < k ==> f.clauses[j].attr != attr
    ensures IndexOfClause(f, attr) == k
  {
    assert Mentions(f.clauses, attr);
  }

  /**
   * The lookup of `attr` depends only on the positions holding `attr`: when `g` agrees with `f`
   * wherever either holds `attr`, and `g`'s extra clauses are on other attributes, both find the
   * same clause at the same index.
   */
  lemma ClauseForFrame(f: Filter, g: Filter, attr: Attribute)
    requires |f.clauses| <= |g.clauses|
    requires forall j :: 0 <= j < |f.clauses| && (f.clauses[j].attr == attr || g.clauses[j].attr == attr) ==>
               g.clauses[j] == f.clauses[j]
    requires forall j :: |f.clauses| <= j < |g.clauses| ==> g.clauses[j].attr != attr
    ensures IndexOfClause(g, attr) == IndexOfClause(f, attr)
    ensures ClauseForExpression(g, attr) == ClauseForExpression(f, attr)
  {
    var i := IndexOfClause(f, attr);
    if i == -1 {
      forall j | 0 <= j < |g.clauses| ensures g.clauses[j].attr != attr {
      }
    } else {
      FirstIndexIs(g, attr, i);
    }
  }

  /** Deleting a clause on another attribute leaves the lookup of `attr` as it was. */
  lemma ClauseForAfterDelete(f: Filter, i: int, attr: Attribute)
    requires 0 <= i < |f.clauses| && f.clauses[i].attr != attr
    ensures ClauseForExpression(Filter(f.clauses[..i] + f.clauses[i + 1..]), attr) == ClauseForExpression(f, attr)
  {
    var cs := f.clauses;
    var g := Filter(cs[..i] + cs[i + 1..]);
    var k := IndexOfClause(f, attr);
    forall j | 0 <= j < |g.clauses| && (k == -1 || j < (if k < i then k else k - 1))
      ensures g.clauses[j].attr != attr
    {
      if j < i { assert g.clauses[j] == cs[j]; } else { assert g.clauses[j] == cs[j + 1]; }
    }
    if k != -1 && k < i {
      assert g.clauses[k] == cs[k];
      FirstIndexIs(g, attr, k);
    } else if k != -1 {
      assert g.clauses[k - 1] == cs[k];
      FirstIndexIs(g, attr, k - 1);
    }
  }

  /** Deleting a clause keeps the remaining attributes distinct. */
  lemma UniqueAfterDelete(cs: seq<Clause>, i: int)
    requires UniqueAttrs(cs) && 0 <= i < |cs|
    ensures UniqueAttrs(cs[..i] + cs[i + 1..])
  {
    var g := cs[..i] + cs[i + 1..];
    forall a, b | 0 <= a < b < |g| ensures g[a].attr != g[b].attr {
      var a' := if a < i then a else a + 1;
      var b' := if b < i then b else b + 1;
      assert g[a] == cs[a'] && g[b] == cs[b'];
    }
  }

  /** Rewriting a clause in place with one on the same attribute keeps the attributes distinct. */
  lemma UniqueAfterRewrite(cs: seq<Clause>, i: int, c: Clause)
    requires UniqueAttrs(cs) && 0 <= i < |cs| && c.attr == cs[i].attr
    ensures UniqueAttrs(cs[i := c])
  {
  }

  /** Appending a clause on an attribute not yet constrained keeps the attributes distinct. */
  lemma UniqueAfterAppend(cs: seq<Clause>, c: Clause)
    requires UniqueAttrs(cs) && !Mentions(cs, c.attr)
    ensures UniqueAttrs(cs + [c])
  {
    var g := cs + [c];
    forall a, b | 0 <= a < b < |g| ensures g[a].attr != g[b].attr {
      if b == |cs| { assert g[a] == cs[a]; }
    }
  }

  // ---------------------------------------------------------------------------------------------
  // Value-set edits
  // ---------------------------------------------------------------------------------------------

  /**
   * After addValue the filter holds `value` for `attr`, every other attribute finds the clause it
   * found before, and at most one clause per attribute still holds.
   */
  lemma AddValueEffect(f: Filter, attr: Attribute, value: Value)
    requires InClauseIsSet(f, attr) && AddValue(f, attr, value).Ok?
    ensures var g := AddValue(f, attr, value).value;
            InClauseIsSet(g, attr) && FilteredOnValue(g, attr, value) == Ok(true)
    ensures var g := AddValue(f, attr, value).value;
            forall b :: b != attr ==> ClauseForExpression(g, b) == ClauseForExpression(f, b)
    ensures UniqueAttrs(f.clauses) ==> UniqueAttrs(AddValue(f, attr, value).value.clauses)
  {
    var cs, i := f.clauses, IndexOfClause(f, attr);
    var g := AddValue(f, attr, value).value;
    var c := if i == -1 then g.clauses[|cs|] else g.clauses[i];
    assert g.clauses == if i == -1 then cs + [c] else cs[i := c];
    RewriteOrAppendEffect(f, g, c);
  }

  /**
   * After removeValue on a filter with one clause per attribute, the filter no longer holds
   * `value` for `attr`; every other attribute finds the clause it found before; and at most one
   * clause per attribute still holds.
   */
  lemma RemoveValueEffect(f: Filter, attr: Attribute, value: Value)
    requires UniqueAttrs(f.clauses) && InClauseIsSet(f, attr) && RemoveValue(f, attr, value).Ok?
    ensures var g := RemoveValue(f, attr, value).value;
            InClauseIsSet(g, attr) && FilteredOnValue(g, attr, value) == Ok(false)
    ensures var g := RemoveValue(f, attr, value).value;
            forall b :: b != attr ==> ClauseForExpression(g, b) == ClauseForExpression(f, b)
    ensures UniqueAttrs(RemoveValue(f, attr, value).value.clauses)
  {
    var cs, i := f.clauses, IndexOfClause(f, attr);
    var g := RemoveValue(f, attr, value).value;
    if i != -1 {
      if cs[i].action.lit.values - {value} == {} {
        UniqueAfterDelete(cs, i);
        forall j | 0 <= j < |g.clauses| ensures g.clauses[j].attr != attr {
          if j < i { assert g.clauses[j] == cs[j]; } else { assert g.clauses[j] == cs[j + 1]; }
        }
        forall b | b != attr ensures ClauseForExpression(g, b) == ClauseForExpression(f, b) {
          ClauseForAfterDelete(f, i, b);
        }
      } else {
        assert g.clauses == cs[i := g.clauses[i]];
        FirstIndexIs(g, attr, i);
        UniqueAfterRewrite(cs, i, g.clauses[i]);
        forall b | b != attr ensures ClauseForExpression(g, b) == ClauseForExpression(f, b) {
          ClauseForFrame(f, g, b);
        }
      }
    }
  }

  /** toggleValue flips whether the filter holds `value` for `attr`, and keeps one clause per attribute. */
  lemma ToggleValueFlips(f: Filter, attr: Attribute, value: Value)
    requires UniqueAttrs(f.clauses) && InClauseIsSet(f, attr) && ToggleValue(f, attr, value).Ok?
    ensures var g := ToggleValue(f, attr, value).value;
            InClauseIsSet(g, attr) && UniqueAttrs(g.clauses)
            && FilteredOnValue(g, attr, value) == Ok(!FilteredOnValue(f, attr, value).value)
  {
    if FilteredOnValue(f, attr, value) == Ok(true) {
      RemoveValueEffect(f, attr, value);
    } else {
      AddValueEffect(f, attr, value);
    }
  }

  /**
   * Toggling a value twice on an attribute that has no clause gives back the same clause list:
   * the first toggle appends `attr in {value}`, the second drops it again.
   */
  lemma ToggleTwiceUnconstrained(f: Filter, attr: Attribute, value: Value)
    requires !FilteredOn(f, attr)
    ensures ToggleValue(f, attr, value).Ok?
    ensures var g := ToggleValue(f, attr, value).value;
            InClauseIsSet(g, attr) && ToggleValue(g, attr, value) == Ok(f)
  {
    var g := Filter(f.clauses + [Clause(attr, In(SetLit({value})))]);
    ToggleAppends(f, attr, value);
    ToggleDropsSingleton(g, attr, value, |f.clauses|);
    assert g.clauses[..|f.clauses|] + g.clauses[|f.clauses| + 1..] == f.clauses;
  }

  /** Toggling a value on an attribute that has no clause appends `attr in {value}`. */
  lemma ToggleAppends(f: Filter, attr: Attribute, value: Value)
    requires !FilteredOn(f, attr)
    ensures InClauseIsSet(f, attr)
    ensures ToggleValue(f, attr, value) == Ok(Filter(f.clauses + [Clause(attr, In(SetLit({value})))]))
  {
    assert IndexOfClause(f, attr) == -1 && FilteredOnValue(f, attr, value) == Ok(false);
  }

  /**
   * Toggling the only value of the only clause on `attr` deletes that clause, and no clause on
   * `attr` remains.
   */
  lemma ToggleDropsSingleton(f: Filter, attr: Attribute, value: Value, i: int)
    requires 0 <= i < |f.clauses| && f.clauses[i] == Clause(attr, In(SetLit({value})))
    requires forall j :: 0 <= j < |f.clauses| && j != i ==> f.clauses[j].attr != attr
    ensures InClauseIsSet(f, attr)
    ensures ToggleValue(f, attr, value) == Ok(Filter(f.clauses[..i] + f.clauses[i + 1..]))
    ensures !FilteredOn(Filter(f.clauses[..i] + f.clauses[i + 1..]), attr)
  {
    var cs := f.clauses;
    FirstIndexIs(f, attr, i);
    assert {value} - {value} == {};
    assert FilteredOnValue(f, attr, value) == Ok(true);
    var g := cs[..i] + cs[i + 1..];
    forall j | 0 <= j < |g| ensures g[j].attr != attr {
      if j < i { assert g[j] == cs[j]; } else { assert g[j] == cs[j + 1]; }
    }
  }

  /**
   * Toggling a value twice on an attribute whose value set holds some other value gives back the
   * same filter: the clause is rewritten in place both times.
   */
  lemma ToggleTwiceKeepsClause(f: Filter, attr: Attribute, value: Value, other: Value)
    requires FilteredOn(f, attr)
    requires var c := f.clauses[IndexOfClause(f, attr)];
             c.action.In? && c.action.lit.SetLit? && other in c.action.lit.values && other != value
    ensures ToggleValue(f, attr, value).Ok?
    ensures var g := ToggleValue(f, attr, value).value;
            InClauseIsSet(g, attr) && ToggleValue(g, attr, value) == Ok(f)
  {
    var cs, i := f.clauses, IndexOfClause(f, attr);
    var s := cs[i].action.lit.values;
    var s' := Toggled(s, value);
    var g := Filter(cs[i := Clause(attr, In(SetLit(s')))]);
    assert ToggleValue(f, attr, value) == Ok(g) by {
      ToggleInPlace(f, attr, value, other, i, s);
    }
    ToggleBack(f, attr, value, other, i, s);
  }

  /** The second toggle of ToggleTwiceKeepsClause: it rewrites the clause back to the original set. */
  lemma ToggleBack(f: Filter, attr: Attribute, value: Value, other: Value, i: int, s: set<Value>)
    requires IndexOfClause(f, attr) == i && i != -1
    requires f.clauses[i] == Clause(attr, In(SetLit(s))) && other in s && other != value
    ensures var g := Filter(f.clauses[i := Clause(attr, In(SetLit(Toggled(s, value))))]);
            InClauseIsSet(g, attr) && ToggleValue(g, attr, value) == Ok(f)
  {
    var s' := Toggled(s, value);
    var g := Filter(f.clauses[i := Clause(attr, In(SetLit(s')))]);
    assert IndexOfClause(g, attr) == i by {
      RewriteKeepsIndex(f, attr, Clause(attr, In(SetLit(s'))));
    }
    assert ToggleValue(g, attr, value) == Ok(Filter(g.clauses[i := Clause(attr, In(SetLit(s)))])) by {
      ToggleInPlace(g, attr, value, other, i, s');
      ToggledTwice(s, value);
    }
    assert g.clauses[i := f.clauses[i]] == f.clauses;
  }

  /** Toggling a value twice gives back the same set. */
  lemma ToggledTwice(s: set<Value>, value: Value)
    ensures Toggled(Toggled(s, value), value) == s
  {
  }

  /** A set with `value` removed when present, added when absent. */
  function Toggled(s: set<Value>, value: Value): (r: set<Value>)
    ensures value in r <==> value !in s
    ensures r - {value} == s - {value}
  {
    if value in s then s - {value} else s + {value}
  }

  /**
   * Toggling a value on an attribute whose value set holds some other value rewrites that
   * clause in place with the toggled set.
   */
  lemma ToggleInPlace(f: Filter, attr: Attribute, value: Value, other: Value, i: int, s: set<Value>)
    requires IndexOfClause(f, attr) == i && i != -1
    requires f.clauses[i] == Clause(attr, In(SetLit(s))) && other in s && other != value
    ensures InClauseIsSet(f, attr)
    ensures ToggleValue(f, attr, value) == Ok(Filter(f.clauses[i := Clause(attr, In(SetLit(Toggled(s, value))))]))
  {
    assert FilteredOnValue(f, attr, value) == Ok(value in s);
    assert other in s - {value};
  }

  /** Rewriting the clause found for `attr` with another clause on `attr` keeps it the one found. */
  lemma RewriteKeepsIndex(f: Filter, attr: Attribute, c: Clause)
    requires FilteredOn(f, attr) && c.attr == attr
    ensures IndexOfClause(Filter(f.clauses[IndexOfClause(f, attr) := c]), attr) == IndexOfClause(f, attr)
  {
    FirstIndexIs(Filter(f.clauses[IndexOfClause(f, attr) := c]), attr, IndexOfClause(f, attr));
  }

  /**
   * Toggling twice does not always give back the same filter: the only clause on `a`, whose set
   * is just `{value}`, is dropped by the first toggle and appended at the end by the second.
   */
  lemma ToggleTwiceMovesSingleton(f: Filter, a: Attribute, value: Value, i: int)
    requires 0 <= i < |f.clauses| && f.clauses[i] == Clause(a, In(SetLit({value})))
    requires forall j :: 0 <= j < |f.clauses| && j != i ==> f.clauses[j].attr != a
    ensures ToggleValue(f, a, value).Ok?
    ensures var g := ToggleValue(f, a, value).value;
            InClauseIsSet(g, a)
            && ToggleValue(g, a, value) == Ok(Filter(f.clauses[..i] + f.clauses[i + 1..] + [f.clauses[i]]))
  {
    var g := Filter(f.clauses[..i] + f.clauses[i + 1..]);
    ToggleDropsSingleton(f, a, value, i);
    ToggleAppends(g, a, value);
  }

  /**
   * Toggling twice drops the only clause on `a` when its set is empty: the first toggle adds
   * `value` in place, the second takes it out and so deletes the clause.
   */
  lemma ToggleTwiceDropsEmpty(f: Filter, a: Attribute, value: Value, i: int)
    requires 0 <= i < |f.clauses| && f.clauses[i] == Clause(a, In(SetLit({})))
    requires forall j :: 0 <= j < |f.clauses| && j != i ==> f.clauses[j].attr != a
    ensures ToggleValue(f, a, value).Ok?
    ensures var g := ToggleValue(f, a, value).value;
            InClauseIsSet(g, a) && ToggleValue(g, a, value) == Ok(Filter(f.clauses[..i] + f.clauses[i + 1..]))
  {
    var cs := f.clauses;
    FirstIndexIs(f, a, i);
    assert {} + {value} == {value} && {value} - {value} == {};
    var g := Filter(cs[i := Clause(a, In(SetLit({value})))]);
    assert ToggleValue(f, a, value) == Ok(g);
    FirstIndexIs(g, a, i);
    assert g.clauses[..i] + g.clauses[i + 1..] == cs[..i] + cs[i + 1..];
  }

  /**
   * A worked scenario: adding "UK" and then "US" for `country` to the empty filter gives one
   * clause holding both, and toggling "UK" then leaves `country in {"US"}`.
   */
  lemma ValueEditScenario(country: Attribute, uk: Value, us: Value)
    requires uk != us
    ensures AddValue(EMPTY, country, uk) == Ok(Filter([Clause(country, In(SetLit({uk})))]))
    ensures AddValue(Filter([Clause(country, In(SetLit({uk})))]), country, us)
            == Ok(Filter([Clause(country, In(SetLit({uk, us})))]))
    ensures ToggleValue(Filter([Clause(country, In(SetLit({uk, us})))]), country, uk)
            == Ok(Filter([Clause(country, In(SetLit({us})))]))
  {
    var f1 := Filter([Clause(country, In(SetLit({uk})))]);
    var f2 := Filter([Clause(country, In(SetLit({uk, us})))]);
    FirstIndexIs(f1, country, 0);
    FirstIndexIs(f2, country, 0);
    assert {uk} + {us} == {uk, us};
    assert f1.clauses[0 := Clause(country, In(SetLit({uk, us})))] == f2.clauses;
    assert FilteredOnValue(f2, country, uk) == Ok(true);
    assert {uk, us} - {uk} == {us};
    assert f2.clauses[0 := Clause(country, In(SetLit({us})))] == [Clause(country, In(SetLit({us})))];
  }

  /**
   * setValues with a non-empty list leaves `attr in values` as the clause for `attr`, the other
   * attributes' clauses as they were, and one clause per attribute.
   */
  lemma SetValuesEffect(f: Filter, attr: Attribute, values: seq<Value>)
    requires values != []
    ensures var g := SetValues(f, attr, values);
            ClauseForExpression(g, attr) == Some(Clause(attr, In(SetLit(SetOf(values)))))
    ensures var g := SetValues(f, attr, values);
            forall b :: b != attr ==> ClauseForExpression(g, b) == ClauseForExpression(f, b)
    ensures UniqueAttrs(f.clauses) ==> UniqueAttrs(SetValues(f, attr, values).clauses)
  {
    var cs, i := f.clauses, IndexOfClause(f, attr);
    var c := Clause(attr, In(SetLit(SetOf(values))));
    var g := SetValues(f, attr, values);
    assert g.clauses == if i == -1 then cs + [c] else cs[i := c];
    RewriteOrAppendEffect(f, g, c);
  }

  /**
   * setValues with an empty list leaves no clause on `attr` in a filter with one clause per
   * attribute, and keeps one clause per attribute.
   */
  lemma SetValuesEmptyClears(f: Filter, attr: Attribute)
    requires UniqueAttrs(f.clauses)
    ensures !FilteredOn(SetValues(f, attr, []), attr)
    ensures UniqueAttrs(SetValues(f, attr, []).clauses)
  {
    var cs, i := f.clauses, IndexOfClause(f, attr);
    var g := SetValues(f, attr, []);
    var k := if i == -1 then |cs| - 1 else i;
    if cs != [] {
      UniqueAfterDelete(cs, k);
      forall j | 0 <= j < |g.clauses| ensures g.clauses[j].attr != attr {
        if j < k { assert g.clauses[j] == cs[j]; } else { assert g.clauses[j] == cs[j + 1]; }
      }
    }
  }

  /**
   * setValues with an empty list on an attribute that has no clause deletes the last clause of
   * the filter, which constrains another attribute.
   */
  lemma SetValuesEmptyDropsLast(a: Attribute, b: Attribute, action: Action)
    requires a != b
    ensures var f := Filter([Clause(b, action)]);
            FilteredOn(f, b) && !FilteredOn(SetValues(f, a, []), b)
  {
    var f := Filter([Clause(b, action)]);
    assert f.clauses[0].attr == b;
    assert IndexOfClause(f, a) == -1;
    assert SetValues(f, a, []).clauses == [];
  }

  /**
   * The corrected setValues with an empty list removes the clause on `attr` (the only one, in a
   * filter with one clause per attribute) and leaves every other attribute's clause as it was.
   */
  lemma SetValuesCorrectedKeepsOthers(f: Filter, attr: Attribute)
    requires UniqueAttrs(f.clauses)
    ensures var g := SetValuesCorrected(f, attr, []);
            !FilteredOn(g, attr) && UniqueAttrs(g.clauses)
            && forall b :: b != attr ==> ClauseForExpression(g, b) == ClauseForExpression(f, b)
  {
    var cs, i := f.clauses, IndexOfClause(f, attr);
    var g := SetValuesCorrected(f, attr, []);
    if i != -1 {
      SetValuesEmptyClears(f, attr);
      forall b | b != attr ensures ClauseForExpression(g, b) == ClauseForExpression(f, b) {
        ClauseForAfterDelete(f, i, b);
      }
    }
  }

  // ---------------------------------------------------------------------------------------------
  // Range edits
  // ---------------------------------------------------------------------------------------------

  /**
   * setTimeRange leaves `attr in range` as the clause for `attr`, the other attributes' clauses
   * as they were, and one clause per attribute.
   */
  lemma SetTimeRangeEffect(f: Filter, attr: Attribute, range: TimeRange)
    ensures var g := SetTimeRange(f, attr, range);
            ClauseForExpression(g, attr) == Some(Clause(attr, In(RangeLit(range))))
    ensures var g := SetTimeRange(f, attr, range);
            forall b :: b != attr ==> ClauseForExpression(g, b) == ClauseForExpression(f, b)
    ensures UniqueAttrs(f.clauses) ==> UniqueAttrs(SetTimeRange(f, attr, range).clauses)
  {
    var cs, i := f.clauses, IndexOfClause(f, attr);
    var c := Clause(attr, In(RangeLit(range)));
    var g := SetTimeRange(f, attr, range);
    assert g.clauses == if i == -1 then cs + [c] else cs[i := c];
    RewriteOrAppendEffect(f, g, c);
  }

  /**
   * Putting `c` in place of the clause found for its attribute, or appending it when there is
   * none, makes `c` the clause found, keeps every other attribute's clause, and keeps one clause
   * per attribute.
   */
  lemma RewriteOrAppendEffect(f: Filter, g: Filter, c: Clause)
    requires var cs, i := f.clauses, IndexOfClause(f, c.attr);
             g.clauses == if i == -1 then cs + [c] else cs[i := c]
    ensures ClauseForExpression(g, c.attr) == Some(c)
    ensures forall b :: b != c.attr ==> ClauseForExpression(g, b) == ClauseForExpression(f, b)
    ensures UniqueAttrs(f.clauses) ==> UniqueAttrs(g.clauses)
  {
    var cs, i := f.clauses, IndexOfClause(f, c.attr);
    if i == -1 {
      FirstIndexIs(g, c.attr, |cs|);
      if UniqueAttrs(cs) { UniqueAfterAppend(cs, c); }
    } else {
      FirstIndexIs(g, c.attr, i);
      if UniqueAttrs(cs) { UniqueAfterRewrite(cs, i, c); }
    }
    forall b | b != c.attr ensures ClauseForExpression(g, b) == ClauseForExpression(f, b) {
      ClauseForFrame(f, g, b);
    }
  }

  // ---------------------------------------------------------------------------------------------
  // Whole-clause edits
  // ---------------------------------------------------------------------------------------------

  /**
   * After setClause the clause is the one found for its attribute, every other attribute finds
   * the clause it found before, and one clause per attribute still holds.
   */
  lemma WithClauseEffect(f: Filter, clause: Clause)
    ensures ClauseForExpression(WithClause(f, clause), clause.attr) == Some(clause)
    ensures forall b :: b != clause.attr ==>
              ClauseForExpression(WithClause(f, clause), b) == ClauseForExpression(f, b)
    ensures UniqueAttrs(f.clauses) ==> UniqueAttrs(WithClause(f, clause).clauses)
  {
    var cs, i := f.clauses, IndexOfClause(f, clause.attr);
    var g := WithClause(f, clause);
    if i == -1 {
      FirstIndexIs(g, clause.attr, |cs|);
      assert g.clauses == cs + [clause];
      if UniqueAttrs(cs) { UniqueAfterAppend(cs, clause); }
    } else {
      FirstIndexIs(g, clause.attr, i);
    }
    forall b | b != clause.attr
      ensures ClauseForExpression(g, b) == ClauseForExpression(f, b)
    {
      ClauseForFrame(f, g, b);
    }
  }

  /** Applying a delta keeps one clause per attribute. */
  lemma {:induction false} DeltaAppliedKeepsUnique(f: Filter, delta: seq<Clause>)
    requires UniqueAttrs(f.clauses)
    ensures UniqueAttrs(DeltaApplied(f, delta).clauses)
    decreases |delta|
  {
    if delta != [] {
      DeltaAppliedKeepsUnique(f, delta[..|delta| - 1]);
      WithClauseEffect(DeltaApplied(f, delta[..|delta| - 1]), delta[|delta| - 1]);
    }
  }

  /** In a list with one clause per attribute, the last clause's attribute is not constrained before it. */
  lemma LastIsNew(delta: seq<Clause>)
    requires UniqueAttrs(delta) && delta != []
    ensures UniqueAttrs(delta[..|delta| - 1]) && !Mentions(delta[..|delta| - 1], delta[|delta| - 1].attr)
  {
    var init := delta[..|delta| - 1];
    forall j | 0 <= j < |init| ensures init[j].attr != delta[|delta| - 1].attr {
      assert init[j] == delta[j];
    }
  }

  /** Looking up an attribute in a list with one more clause at the end. */
  lemma ClauseForAppend(cs: seq<Clause>, c: Clause, attr: Attribute)
    ensures ClauseForExpression(Filter(cs + [c]), attr)
            == if Mentions(cs, attr) then ClauseForExpression(Filter(cs), attr)
               else if c.attr == attr then Some(c) else None
  {
    var g := Filter(cs + [c]);
    var k := IndexOfClause(Filter(cs), attr);
    if k != -1 {
      FirstIndexIs(g, attr, k);
    } else if c.attr == attr {
      FirstIndexIs(g, attr, |cs|);
    } else {
      ClauseForFrame(Filter(cs), g, attr);
    }
  }

  /**
   * applyDelta is right-biased per attribute: an attribute the delta constrains finds the delta's
   * clause, any other finds the base filter's.
   */
  lemma {:induction false} DeltaAppliedRightBiased(f: Filter, delta: seq<Clause>, attr: Attribute)
    requires UniqueAttrs(delta)
    ensures ClauseForExpression(DeltaApplied(f, delta), attr)
            == if Mentions(delta, attr) then ClauseForExpression(Filter(delta), attr)
               else ClauseForExpression(f, attr)
    decreases |delta|
  {
    if delta != [] {
      var init, d := delta[..|delta| - 1], delta[|delta| - 1];
      assert delta == init + [d];
      DeltaAppliedRightBiased(f, init, attr);
      WithClauseEffect(DeltaApplied(f, init), d);
      ClauseForAppend(init, d, attr);
      LastIsNew(delta);
    }
  }

  /** Each clause of the base filter, overwritten by the delta's clause for its attribute, if any. */
  function Overwritten(cs: seq<Clause>, delta: seq<Clause>): (r: seq<Clause>)
    ensures |r| == |cs|
    ensures forall j :: 0 <= j < |cs| ==> r[j].attr == cs[j].attr
  {
    seq(|cs|, j requires 0 <= j < |cs| =>
      match ClauseForExpression(Filter(delta), cs[j].attr)
      case Some(d) => d
      case None => cs[j])
  }

  /** The clauses of the delta on attributes the base filter does not constrain, in the delta's order. */
  function Introduced(delta: seq<Clause>, cs: seq<Clause>): (r: seq<Clause>)
    ensures forall j :: 0 <= j < |r| ==> !Mentions(cs, r[j].attr) && Mentions(delta, r[j].attr)
    decreases |delta|
  {
    if delta == [] then []
    else
      var init, d := delta[..|delta| - 1], delta[|delta| - 1];
      var r := Introduced(init, cs) + (if Mentions(cs, d.attr) then [] else [d]);
      assert forall j :: 0 <= j < |init| ==> init[j] == delta[j];
      r
  }

  /** Overwriting with one more delta clause, on a new attribute, rewrites the positions on that attribute. */
  lemma OverwrittenStep(cs: seq<Clause>, delta: seq<Clause>)
    requires delta != [] && !Mentions(delta[..|delta| - 1], delta[|delta| - 1].attr)
    ensures var init, d := delta[..|delta| - 1], delta[|delta| - 1];
            forall j :: 0 <= j < |cs| ==>
              Overwritten(cs, delta)[j] == if cs[j].attr == d.attr then d else Overwritten(cs, init)[j]
  {
    var init, d := delta[..|delta| - 1], delta[|delta| - 1];
    assert delta == init + [d];
    forall j | 0 <= j < |cs|
      ensures Overwritten(cs, delta)[j] == if cs[j].attr == d.attr then d else Overwritten(cs, init)[j]
    {
      ClauseForAppend(init, d, cs[j].attr);
    }
  }

  /** With an empty delta nothing is overwritten and nothing introduced. */
  lemma OverwrittenNothing(cs: seq<Clause>)
    ensures Overwritten(cs, []) + Introduced([], cs) == cs
  {
    assert forall j :: 0 <= j < |cs| ==> Overwritten(cs, [])[j] == cs[j];
  }

  /**
   * The shape of applyDelta's result: the base filter's clauses at their positions, each
   * overwritten by the delta's clause for its attribute, then the delta's clauses on new
   * attributes, in the delta's order.
   */
  lemma {:induction false} DeltaAppliedShape(f: Filter, delta: seq<Clause>)
    requires UniqueAttrs(delta)
    ensures DeltaApplied(f, delta).clauses == Overwritten(f.clauses, delta) + Introduced(delta, f.clauses)
    decreases |delta|
  {
    if delta != [] {
      var cs := f.clauses;
      var init, d := delta[..|delta| - 1], delta[|delta| - 1];
      LastIsNew(delta);
      DeltaAppliedShape(f, init);
      var ov, intro := Overwritten(cs, init), Introduced(init, cs);
      var ov' := Overwritten(cs, delta);
      var tail := if Mentions(cs, d.attr) then [] else [d];
      var x := DeltaApplied(f, init);
      assert forall j :: 0 <= j < |ov| ==> ov'[j] == if ov[j].attr == d.attr then d else ov[j] by {
        OverwrittenStep(cs, delta);
      }
      assert forall j :: 0 <= j < |intro| ==> intro[j].attr != d.attr by {
        assert !Mentions(init, d.attr);
      }
      MentionsRelabelled(ov, intro, cs, d.attr);
      assert Introduced(delta, cs) == intro + tail;
      DeltaAppliedStep(x, d, ov, ov', intro, tail);
    } else {
      OverwrittenNothing(f.clauses);
    }
  }

  /**
   * A list whose first part has the attributes of `cs`, position by position, and whose rest
   * avoids `attr`, constrains `attr` exactly when `cs` does.
   */
  lemma MentionsRelabelled(ov: seq<Clause>, intro: seq<Clause>, cs: seq<Clause>, attr: Attribute)
    requires |ov| == |cs| && forall j :: 0 <= j < |cs| ==> ov[j].attr == cs[j].attr
    requires forall j :: 0 <= j < |intro| ==> intro[j].attr != attr
    ensures Mentions(ov + intro, attr) == Mentions(cs, attr)
  {
    forall j | |ov| <= j < |ov + intro| ensures (ov + intro)[j].attr != attr {
      assert (ov + intro)[j] == intro[j - |ov|];
    }
    if Mentions(ov + intro, attr) {
      var j :| 0 <= j < |ov + intro| && (ov + intro)[j].attr == attr;
      assert cs[j].attr == attr;
    }
    if Mentions(cs, attr) {
      var j :| 0 <= j < |cs| && cs[j].attr == attr;
      assert (ov + intro)[j] == ov[j];
    }
  }

  /**
   * The induction step of DeltaAppliedShape: setting a clause `d` on a list made of rewritable
   * positions `ov` and positions `intro` on other attributes.
   */
  lemma DeltaAppliedStep(x: Filter, d: Clause, ov: seq<Clause>, ov': seq<Clause>, intro: seq<Clause>,
                         tail: seq<Clause>)
    requires x.clauses == ov + intro && |ov'| == |ov|
    requires forall j :: 0 <= j < |ov| ==> ov'[j] == if ov[j].attr == d.attr then d else ov[j]
    requires forall j :: 0 <= j < |intro| ==> intro[j].attr != d.attr
    requires tail == if Mentions(x.clauses, d.attr) then [] else [d]
    ensures WithClause(x, d).clauses == ov' + intro + tail
  {
    var r := WithClause(x, d).clauses;
    assert forall j :: |ov| <= j < |ov| + |intro| ==> r[j] == intro[j - |ov|] by {
      forall j | |ov| <= j < |ov| + |intro| ensures r[j] == intro[j - |ov|] {
        assert x.clauses[j] == intro[j - |ov|];
      }
    }
    Assembled(r, ov', intro, tail);
  }

  /** A list that agrees position by position with the three parts of a concatenation is that concatenation. */
  lemma Assembled(r: seq<Clause>, a: seq<Clause>, b: seq<Clause>, c: seq<Clause>)
    requires |r| == |a| + |b| + |c| && |c| <= 1
    requires forall j :: 0 <= j < |a| ==> r[j] == a[j]
    requires forall j :: |a| <= j < |a| + |b| ==> r[j] == b[j - |a|]
    requires c != [] ==> r[|a| + |b|] == c[0]
    ensures r == a + b + c
  {
  }

  // ---------------------------------------------------------------------------------------------
  // Positional edits
  // ---------------------------------------------------------------------------------------------

  /** Dropping the copies of a clause from a list without any changes nothing. */
  lemma {:induction false} WithoutAbsent(cs: seq<Clause>, clause: Clause)
    requires forall i :: 0 <= i < |cs| ==> cs[i] != clause
    ensures Without(cs, clause) == cs
    decreases |cs|
  {
    if cs != [] {
      WithoutAbsent(cs[1..], clause);
      assert cs == [cs[0]] + cs[1..];
    }
  }

  /** insertByIndex leaves exactly one copy of the inserted clause; the length grows by one less the copies there were. */
  lemma InsertByIndexCounts(f: Filter, index: int, clause: Clause)
    requires 0 <= index <= |f.clauses|
    ensures var r := InsertByIndex(f, index, clause).clauses;
            multiset(r)[clause] == 1 && |r| == |f.clauses| + 1 - multiset(f.clauses)[clause]
  {
    var cs := f.clauses;
    var left, right := Without(cs[..index], clause), Without(cs[index..], clause);
    var r := InsertByIndex(f, index, clause).clauses;
    var m1, m2 := multiset(cs[..index])[clause], multiset(cs[index..])[clause];
    assert multiset(cs)[clause] == m1 + m2 by {
      assert cs == cs[..index] + cs[index..];
    }
    assert multiset(left)[clause] == 0 && |left| == index - m1 by {
      WithoutCounts(cs[..index], clause);
    }
    assert multiset(right)[clause] == 0 && |right| == |cs| - index - m2 by {
      WithoutCounts(cs[index..], clause);
    }
    assert multiset(r)[clause] == multiset(left)[clause] + 1 + multiset(right)[clause] by {
      assert multiset(r) == multiset(left) + multiset{clause} + multiset(right);
    }
  }

  /** insertByIndex keeps every other clause, in its relative order. */
  lemma InsertByIndexKeepsOthers(f: Filter, index: int, clause: Clause)
    requires 0 <= index <= |f.clauses|
    ensures Without(InsertByIndex(f, index, clause).clauses, clause) == Without(f.clauses, clause)
  {
    var cs := f.clauses;
    var left, right := Without(cs[..index], clause), Without(cs[index..], clause);
    assert Without(cs, clause) == left + right by {
      assert cs == cs[..index] + cs[index..];
      WithoutAppend(cs[..index], cs[index..], clause);
    }
    assert Without(left + [clause], clause) == left by {
      WithoutAppend(left, [clause], clause);
      WithoutAbsent(left, clause);
      assert Without([clause], clause) == [];
    }
    assert Without(left + [clause] + right, clause) == left + right by {
      WithoutAppend(left + [clause], right, clause);
      WithoutAbsent(right, clause);
    }
  }

  /**
   * replaceByIndex swaps: replacing position 0 of `[c1, c2]` with `c2` moves `c1` to where `c2`
   * was.
   */
  lemma ReplaceByIndexSwaps(c1: Clause, c2: Clause)
    requires c1 != c2
    ensures ReplaceByIndex(Filter([c1, c2]), 0, c2) == Filter([c2, c1])
  {
  }

  /** When no other position holds the new clause, replaceByIndex just overwrites position `index`. */
  lemma ReplaceByIndexOverwrites(f: Filter, index: int, replace: Clause)
    requires 0 <= index < |f.clauses|
    requires forall j :: 0 <= j < |f.clauses| && j != index ==> f.clauses[j] != replace
    ensures ReplaceByIndex(f, index, replace).clauses == f.clauses[index := replace]
  {
  }

  /**
   * Neither positional edit enforces one clause per attribute: inserting `a` after a clause on
   * `a`, or overwriting the clause on `b` with one on `a`, leaves two clauses on `a`.
   */
  lemma PositionalEditsMayDuplicate(a: Attribute, b: Attribute, act1: Action, act2: Action, x: Action)
    requires act1 != act2 && a != b
    ensures var f := Filter([Clause(a, act1)]);
            UniqueAttrs(f.clauses)
            && !UniqueAttrs(InsertByIndex(f, 1, Clause(a, act2)).clauses)
            && !UniqueAttrs(ReplaceByIndex(f, 1, Clause(a, act2)).clauses)
    ensures var g := Filter([Clause(a, act1), Clause(b, x)]);
            UniqueAttrs(g.clauses)
            && ReplaceByIndex(g, 1, Clause(a, act2)).clauses == [Clause(a, act1), Clause(a, act2)]
            && !UniqueAttrs(ReplaceByIndex(g, 1, Clause(a, act2)).clauses)
  {
    var f := Filter([Clause(a, act1)]);
    var c := Clause(a, act2);
    assert Without(f.clauses[..1], c) == [Clause(a, act1)] + Without([], c);
    var r := InsertByIndex(f, 1, c).clauses;
    assert r == [Clause(a, act1), c];
    assert r[0].attr == r[1].attr;
    var g := Filter([Clause(a, act1), Clause(b, x)]);
    var rg := ReplaceByIndex(g, 1, c).clauses;
    assert rg[0] == Clause(a, act1) && rg[1] == c;
    assert rg == [Clause(a, act1), c];
    assert rg[0].attr == rg[1].attr;
  }

  // ---------------------------------------------------------------------------------------------
  // Re-scoping and widening
  // ---------------------------------------------------------------------------------------------

  /** When every clause is on a dimension, re-scoping keeps the list as it is. */
  lemma {:induction false} RescopedNothingDropped(cs: seq<Clause>, dimensions: seq<Attribute>,
                                                  timeAttribute: Option<Attribute>, oldTimeAttribute: Option<Attribute>)
    requires forall j :: 0 <= j < |cs| ==> cs[j].attr in dimensions
    ensures Rescoped(cs, dimensions, timeAttribute, oldTimeAttribute) == cs
    decreases |cs|
  {
    if cs != [] {
      RescopedNothingDropped(cs[..|cs| - 1], dimensions, timeAttribute, oldTimeAttribute);
    }
  }

  /**
   * Where a re-scoped clause may come from: a clause of the list on a dimension, or the clause on
   * the old time attribute (which is not a dimension) rebound to the new time attribute.
   */
  ghost predicate Origin(x: Clause, cs: seq<Clause>, dimensions: seq<Attribute>,
                         timeAttribute: Option<Attribute>, oldTimeAttribute: Option<Attribute>)
  {
    || (x in cs && x.attr in dimensions)
    || (timeAttribute == Some(x.attr) && oldTimeAttribute.Some? && oldTimeAttribute.value !in dimensions
        && exists k :: 0 <= k < |cs| && cs[k].attr == oldTimeAttribute.value && cs[k].action == x.action)
  }

  /** Every re-scoped clause is a kept dimension clause or the rebound time clause. */
  lemma {:induction false} RescopedOrigin(cs: seq<Clause>, dimensions: seq<Attribute>,
                                          timeAttribute: Option<Attribute>, oldTimeAttribute: Option<Attribute>)
    ensures forall j :: 0 <= j < |Rescoped(cs, dimensions, timeAttribute, oldTimeAttribute)| ==>
              Origin(Rescoped(cs, dimensions, timeAttribute, oldTimeAttribute)[j], cs, dimensions, timeAttribute, oldTimeAttribute)
    decreases |cs|
  {
    if cs != [] {
      var init, c := cs[..|cs| - 1], cs[|cs| - 1];
      RescopedOrigin(init, dimensions, timeAttribute, oldTimeAttribute);
      var ri := Rescoped(init, dimensions, timeAttribute, oldTimeAttribute);
      var r := Rescoped(cs, dimensions, timeAttribute, oldTimeAttribute);
      assert forall k :: 0 <= k < |init| ==> init[k] == cs[k];
      forall j | 0 <= j < |r| ensures Origin(r[j], cs, dimensions, timeAttribute, oldTimeAttribute) {
        if j < |ri| {
          assert r[j] == ri[j] && Origin(ri[j], init, dimensions, timeAttribute, oldTimeAttribute);
        } else {
          assert c == cs[|cs| - 1] && c in cs;
        }
      }
    }
  }

  /**
   * Nothing re-scoping should keep is lost: a clause on a dimension stays, and with both time
   * attributes given, the clause on the old time attribute comes back on the new one with its
   * action.
   */
  lemma {:induction false} RescopedKeepsEach(cs: seq<Clause>, dimensions: seq<Attribute>,
                                             timeAttribute: Option<Attribute>, oldTimeAttribute: Option<Attribute>, k: int)
    requires 0 <= k < |cs|
    ensures cs[k].attr in dimensions ==> cs[k] in Rescoped(cs, dimensions, timeAttribute, oldTimeAttribute)
    ensures cs[k].attr !in dimensions && timeAttribute.Some? && oldTimeAttribute == Some(cs[k].attr) ==>
              Clause(timeAttribute.value, cs[k].action) in Rescoped(cs, dimensions, timeAttribute, oldTimeAttribute)
    decreases |cs|
  {
    var init := cs[..|cs| - 1];
    var kept := Kept(cs[k], dimensions, timeAttribute, oldTimeAttribute);
    var ri := Rescoped(init, dimensions, timeAttribute, oldTimeAttribute);
    assert Rescoped(cs, dimensions, timeAttribute, oldTimeAttribute) == ri + Kept(cs[|cs| - 1], dimensions, timeAttribute, oldTimeAttribute);
    if k < |cs| - 1 {
      assert init[k] == cs[k];
      RescopedKeepsEach(init, dimensions, timeAttribute, oldTimeAttribute, k);
    }
  }

  /**
   * Re-scoping keeps one clause per attribute when the new time attribute is not already
   * constrained.
   */
  lemma {:induction false} RescopedKeepsUnique(cs: seq<Clause>, dimensions: seq<Attribute>,
                                               timeAttribute: Option<Attribute>, oldTimeAttribute: Option<Attribute>)
    requires UniqueAttrs(cs)
    requires timeAttribute.Some? ==> !Mentions(cs, timeAttribute.value)
    ensures UniqueAttrs(Rescoped(cs, dimensions, timeAttribute, oldTimeAttribute))
    decreases |cs|
  {
    if cs != [] {
      var init, c := cs[..|cs| - 1], cs[|cs| - 1];
      LastIsNew(cs);
      assert forall k :: 0 <= k < |init| ==> init[k] == cs[k];
      RescopedKeepsUnique(init, dimensions, timeAttribute, oldTimeAttribute);
      RescopedOrigin(init, dimensions, timeAttribute, oldTimeAttribute);
      var ri := Rescoped(init, dimensions, timeAttribute, oldTimeAttribute);
      var kept := Kept(c, dimensions, timeAttribute, oldTimeAttribute);
      if kept != [] {
        forall j | 0 <= j < |ri| ensures ri[j].attr != kept[0].attr {
          assert Origin(ri[j], init, dimensions, timeAttribute, oldTimeAttribute);
          if ri[j] in init {
            var k :| 0 <= k < |init| && init[k] == ri[j];
            assert cs[k] == ri[j];
          }
        }
      }
    }
  }

  /**
   * Re-scoping can break one clause per attribute: a clause already on the new time attribute
   * stays, and the clause on the old time attribute is rebound next to it.
   */
  lemma RescopedMayDuplicate(time: Attribute, oldTime: Attribute, act1: Action, act2: Action)
    requires time != oldTime
    ensures var cs := [Clause(time, act1), Clause(oldTime, act2)];
            UniqueAttrs(cs)
            && Rescoped(cs, [time], Some(time), Some(oldTime)) == [Clause(time, act1), Clause(time, act2)]
  {
    var cs := [Clause(time, act1), Clause(oldTime, act2)];
    assert cs[..1] == [Clause(time, act1)];
    assert cs[..1][..0] == [];
  }

  /** overQuery keeps one clause per attribute, since it keeps every clause's attribute. */
  lemma OverQueryKeepsUnique(f: Filter, move: (int, int) -> int, timeAttribute: Option<Attribute>)
    requires timeAttribute.Some? ==> RangeClauses(f, timeAttribute.value)
    requires UniqueAttrs(f.clauses)
    ensures UniqueAttrs(OverQuery(f, move, timeAttribute).clauses)
  {
  }

  /**
   * When moving back one duration never moves later and moving forward never moves earlier,
   * overQuery's range on the time attribute contains the original range.
   */
  lemma OverQueryWidens(f: Filter, move: (int, int) -> int, time: Attribute, j: int)
    requires RangeClauses(f, time)
    requires forall t :: move(t, -1) <= t <= move(t, 1)
    requires 0 <= j < |f.clauses| && f.clauses[j].attr == time
    ensures var before := f.clauses[j].action.lit.range;
            var after := OverQuery(f, move, Some(time)).clauses[j];
            after.action == In(RangeLit(after.action.lit.range))
            && after.action.lit.range.start <= before.start && before.end <= after.action.lit.range.end
  {
    var before := f.clauses[j].action.lit.range;
    assert move(before.start, -1) <= before.start;
    assert before.end <= move(before.end, 1);
  }

  // ---------------------------------------------------------------------------------------------
  // Conversion
  // ---------------------------------------------------------------------------------------------

  /**
   * Reading an expression and converting the filter back gives the same expression, unless it
   * was a conjunction of fewer than two clauses (which reads as TRUE or as its one clause).
   */
  lemma FromExpressionRoundTrip(e: Expression)
    requires FromExpression(e).Ok?
    requires e.And? ==> |e.operands| >= 2
    ensures ToExpression(FromExpression(e).value) == e
  {
    if e.And? {
      var cs := FromExpression(e).value.clauses;
      var back := ToExpression(FromExpression(e).value);
      assert back.operands == e.operands;
    }
  }
}
