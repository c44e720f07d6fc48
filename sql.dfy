/**
 * The pieces of SQL text the repositories build step by step for a partial UPDATE:
 * numbered placeholders `$n`, SET entries `column = $n`, and what the database server
 * makes of a SET list once the parameter values are bound.
 */
module Sql {
  import opened Wrappers
  import opened Decimal
  import opened Text

  /** A value bound to a placeholder. */
  datatype SqlValue = SqlText(text: string) | SqlId(id: nat) | SqlTime(time: int) | SqlNull

  /** One resolved SET entry: the column and the value it receives. */
  datatype Assign = Assign(column: string, value: SqlValue)

  /** `$n` */
  function Placeholder(n: nat): string {
    "$" + NatText(n)
  }

  /** `column = $n` */
  function Assignment(column: string, n: nat): string {
    column + " = " + Placeholder(n)
  }

  predicate IsColumnName(c: string) {
    c != "" && ' ' !in c
  }

  /** How the server reads one SET entry `column = $n`: the column and the placeholder number. */
  function ParseAssignment(f: string): Option<(string, nat)> {
    if ' ' !in f then None
    else
      var i := IndexOf(f, ' ');
      var rest := f[i..];
      if |rest| > 4 && rest[..4] == " = $" && AllDigits(rest[4..])
      then Some((f[..i], DigitsValue(rest[4..])))
      else None
  }

  /** An entry written by Assignment is read back as the same column and number. */
  lemma ParseAssignmentOf(column: string, n: nat)
    requires IsColumnName(column)
    ensures ParseAssignment(Assignment(column, n)) == Some((column, n))
  {
    var f := Assignment(column, n);
    var digits := NatText(n);
    assert f == column + " = $" + digits;
    assert f[|column|] == ' ';
    assert forall k :: 0 <= k < |column| ==> f[k] == column[k];
    var i := IndexOf(f, ' ');
    assert forall k :: 0 <= k < i ==> f[..i][k] == f[k];
    assert i == |column|;
    assert f[i..] == " = $" + digits;
    assert f[i..][4..] == digits;
    assert f[i..][..4] == " = $";
    assert f[..i] == column;
    ValueOfText(n);
  }

  /**
   * What the server makes of a SET list with bound `values`: each entry `column = $n` assigns
   * `values[n - 1]`; an unreadable entry or a placeholder with no value is an error (None).
   */
  function Bind(fields: seq<string>, values: seq<SqlValue>): Option<seq<Assign>> {
    if fields == [] then Some([])
    else match ParseAssignment(fields[0])
      case None => None
      case Some(entry) =>
        if 1 <= entry.1 <= |values| then
          match Bind(fields[1..], values)
          case None => None
          case Some(rest) => Some([Assign(entry.0, values[entry.1 - 1])] + rest)
        else None
  }

  /** `fields` assigns the columns of `changes` in order, numbering its placeholders from `from`. */
  predicate Numbered(fields: seq<string>, changes: seq<Assign>, from: nat) {
    |fields| == |changes| &&
    forall i :: 0 <= i < |fields| ==> fields[i] == Assignment(changes[i].column, from + i)
  }

  /** Each change's value sits where its placeholder points: `$(from + i)` is `values[from + i - 1]`. */
  predicate BoundAt(changes: seq<Assign>, values: seq<SqlValue>, from: nat) {
    1 <= from && from + |changes| - 1 <= |values| &&
    forall i :: 0 <= i < |changes| ==> IsColumnName(changes[i].column) && values[from + i - 1] == changes[i].value
  }

  function Values(changes: seq<Assign>): (r: seq<SqlValue>)
    ensures |r| == |changes| && forall i :: 0 <= i < |changes| ==> r[i] == changes[i].value
  {
    seq(|changes|, i requires 0 <= i < |changes| => changes[i].value)
  }

  /** Pushing `column = $(k + 1)` onto k numbered entries numbers one change more. */
  lemma NumberedPush(fields: seq<string>, changes: seq<Assign>, a: Assign)
    requires Numbered(fields, changes, 1)
    ensures Numbered(fields + [Assignment(a.column, |fields| + 1)], changes + [a], 1)
  {
  }

  /**
   * A SET list numbered `$from, $from + 1, ...` whose placeholders find the changes' values
   * assigns exactly those changes, in order.
   */
  lemma BindNumbered(fields: seq<string>, changes: seq<Assign>, values: seq<SqlValue>, from: nat)
    requires Numbered(fields, changes, from) && BoundAt(changes, values, from)
    ensures Bind(fields, values) == Some(changes)
  {
    forall i | 0 <= i < |fields| ensures ParseAssignment(fields[i]) == Some((changes[i].column, from + i)) {
      ParseAssignmentOf(changes[i].column, from + i);
    }
    BindParsed(fields, changes, values, from);
  }

  /** Entry `i` of `fields` reads as the column of change `i` and placeholder `from + i`. */
  predicate Parsed(fields: seq<string>, changes: seq<Assign>, from: nat) {
    |fields| == |changes| &&
    forall i :: 0 <= i < |fields| ==> ParseAssignment(fields[i]) == Some((changes[i].column, from + i))
  }

  lemma {:induction false} BindParsed(fields: seq<string>, changes: seq<Assign>, values: seq<SqlValue>, from: nat)
    requires Parsed(fields, changes, from) && BoundAt(changes, values, from)
    ensures Bind(fields, values) == Some(changes)
    decreases |fields|
  {
    if fields != [] {
      var tail, rest := fields[1..], changes[1..];
      assert Parsed(tail, rest, from + 1) by {
        forall i | 0 <= i < |tail| ensures ParseAssignment(tail[i]) == Some((rest[i].column, from + 1 + i)) {
          assert tail[i] == fields[i + 1] && rest[i] == changes[i + 1];
        }
      }
      BoundAtTail(changes, values, from);
      BindParsed(tail, rest, values, from + 1);
      assert ParseAssignment(fields[0]) == Some((changes[0].column, from));
      assert [changes[0]] + rest == changes;
    }
  }

  lemma BoundAtTail(changes: seq<Assign>, values: seq<SqlValue>, from: nat)
    requires BoundAt(changes, values, from) && changes != []
    ensures BoundAt(changes[1..], values, from + 1)
  {
    var rest := changes[1..];
    forall i | 0 <= i < |rest| ensures IsColumnName(rest[i].column) && values[from + 1 + i - 1] == rest[i].value {
      assert rest[i] == changes[i + 1];
    }
  }

  /**
   * `if (x !== undefined) { fields.push(`column = $${fields.length + 1}`); values.push(x); }`:
   * `part` holds the one change when the field was supplied, nothing otherwise.
   */
  method PushChange(fields: seq<string>, values: seq<SqlValue>, ghost changes: seq<Assign>, part: seq<Assign>)
    returns (fields': seq<string>, values': seq<SqlValue>)
    requires Numbered(fields, changes, 1) && values == Values(changes)
    requires |part| <= 1
    ensures Numbered(fields', changes + part, 1) && values' == Values(changes + part)
  {
    if part == [] {
      assert changes + part == changes;
      return fields, values;
    }
    NumberedPush(fields, changes, part[0]);
    ValuesPush(changes, part[0]);
    assert changes + part == changes + [part[0]];
    fields' := fields + [Assignment(part[0].column, |fields| + 1)];
    values' := values + [part[0].value];
  }

  /** Pushing a value keeps `values` the values of the changes pushed so far. */
  lemma ValuesPush(changes: seq<Assign>, a: Assign)
    ensures Values(changes + [a]) == Values(changes) + [a.value]
  {
  }

  /**
   * `values.push(id); values.push(userId)` after k numbered field values: the SET list binds
   * exactly the changes, and `$k+1`, `$k+2` find the id and the owner.
   */
  lemma BindWithOwner(fields: seq<string>, changes: seq<Assign>, values: seq<SqlValue>, id: nat, userId: nat)
    requires Numbered(fields, changes, 1) && values == Values(changes)
    requires forall i :: 0 <= i < |changes| ==> IsColumnName(changes[i].column)
    ensures var all := values + [SqlId(id), SqlId(userId)];
      && Bind(fields, all) == Some(changes)
      && all[|fields|] == SqlId(id) && all[|fields| + 1] == SqlId(userId)
  {
    var all := values + [SqlId(id), SqlId(userId)];
    forall i | 0 <= i < |changes| ensures IsColumnName(changes[i].column) && all[1 + i - 1] == changes[i].value {
      assert all[i] == values[i];
    }
    BindNumbered(fields, changes, all, 1);
  }

  /** `WHERE id = $k AND user_id = $m` */
  function WhereOwned(idParam: nat, userParam: nat): string {
    "WHERE id = " + Placeholder(idParam) + " AND user_id = " + Placeholder(userParam)
  }
}
