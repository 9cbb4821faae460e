/** The scoped-uniqueness rule: a value may not appear in a column among the
    rows that share a scoping column's value, optionally ignoring one id.
    Laravel's own `unique` rule with `ignore` is the same query without the
    scope, so it is modelled here as the unscoped form. */
module CheckUnique {
  import opened Wrappers
  import opened Values

  /** A row as the rule's query sees it: its id, the checked column and the
      scoping column. */
  datatype ScopedRow = ScopedRow(id: nat, value: string, scope: Value)

  /** The constructor arguments that shape the query once the table and the
      columns are fixed: `Some(commonValue)` adds `where(commonColumn,
      commonValue)` (None is the unscoped form), and `exceptId` is the id to
      ignore. */
  datatype Rule = Rule(scope: Option<Value>, exceptId: Value)

  /** The rule is built without an id to ignore. */
  function Scoped(commonValue: Value): (r: Rule)
    ensures r.scope == Some(commonValue) && !Truthy(r.exceptId)
  {
    Rule(Some(commonValue), Null)
  }

  /** `where('id', '!=', exceptId)` is only added when `exceptId` is truthy. */
  predicate Ignored(row: ScopedRow, exceptId: Value) {
    Truthy(exceptId) && Int(row.id) == exceptId
  }

  /** The row is one the `exists` query finds. Laravel turns `where(col,
      null)` into `col IS NULL`, so a null scope matches only null. */
  predicate Conflicts(row: ScopedRow, value: Value, rule: Rule) {
    && value.Str? && value.s == row.value
    && (rule.scope.Some? ==> row.scope == rule.scope.value)
    && !Ignored(row, rule.exceptId)
  }

  /** `passes`: the `exists` query over the rows finds nothing. It reads the
      rows and returns a boolean; there is no new table to return. */
  function Passes(rows: seq<ScopedRow>, value: Value, rule: Rule): (r: bool)
    ensures r <==> forall i :: 0 <= i < |rows| ==> !Conflicts(rows[i], value, rule)
  {
    if |rows| == 0 then true
    else !Conflicts(rows[0], value, rule) && Passes(rows[1..], value, rule)
  }

  /** Without an id to ignore, any row holding the same value in the same
      scope makes the rule fail. */
  lemma SameValueSameScopeFails(rows: seq<ScopedRow>, i: nat, name: NonBlank, commonValue: Value, exceptId: Value)
    requires i < |rows| && rows[i].value == name && rows[i].scope == commonValue
    requires !Truthy(exceptId)
    ensures !Passes(rows, Str(name), Rule(Some(commonValue), exceptId))
  {
    assert Conflicts(rows[i], Str(name), Rule(Some(commonValue), exceptId));
  }

  /** Ignoring id `k` (k nonzero): when every row holding the value in the
      scope is row `k` itself, the rule passes, so a record keeps its own name. */
  lemma OwnRowPasses(rows: seq<ScopedRow>, name: NonBlank, scope: Option<Value>, k: int)
    requires k != 0
    requires forall i :: 0 <= i < |rows| && rows[i].value == name && (scope.Some? ==> rows[i].scope == scope.value) ==> rows[i].id == k
    ensures Passes(rows, Str(name), Rule(scope, Int(k)))
  {
    forall i | 0 <= i < |rows| ensures !Conflicts(rows[i], Str(name), Rule(scope, Int(k))) {
      if rows[i].value == name && (scope.Some? ==> rows[i].scope == scope.value) {
        assert Ignored(rows[i], Int(k));
      }
    }
  }

  /** Rows of other scopes never change the verdict: adding them keeps it. */
  lemma {:induction false} OtherScopesIrrelevant(rows: seq<ScopedRow>, others: seq<ScopedRow>, value: Value, commonValue: Value, exceptId: Value)
    requires forall i :: 0 <= i < |others| ==> others[i].scope != commonValue
    ensures Passes(rows + others, value, Rule(Some(commonValue), exceptId)) == Passes(rows, value, Rule(Some(commonValue), exceptId))
  {
    var rule := Rule(Some(commonValue), exceptId);
    var all := rows + others;
    if Passes(rows, value, rule) {
      forall i | 0 <= i < |all| ensures !Conflicts(all[i], value, rule) {
        if i < |rows| {
          assert all[i] == rows[i];
        } else {
          assert all[i] == others[i - |rows|];
        }
      }
    } else {
      var i :| 0 <= i < |rows| && Conflicts(rows[i], value, rule);
      assert all[i] == rows[i];
    }
  }

  /** A falsy id to ignore (null or 0) ignores nothing. */
  lemma {:induction false} FalsyExceptIdIgnoresNothing(rows: seq<ScopedRow>, value: Value, scope: Option<Value>, exceptId: Value)
    requires !Truthy(exceptId)
    ensures Passes(rows, value, Rule(scope, exceptId)) == Passes(rows, value, Rule(scope, Null))
    ensures Passes(rows, value, Rule(scope, exceptId)) <==>
              forall i :: 0 <= i < |rows| ==> !(value.Str? && value.s == rows[i].value && (scope.Some? ==> rows[i].scope == scope.value))
  {
    if |rows| > 0 {
      FalsyExceptIdIgnoresNothing(rows[1..], value, scope, exceptId);
    }
  }
}
