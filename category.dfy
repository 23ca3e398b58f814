/** The category frequencies behind the pie chart (App.js lines 290-298):
    the first text column's truthy cells counted per property key of the
    accumulator object. */
module Category {
  import opened Cells
  import opened Lists
  import opened Analyzer

  /** JavaScript truthiness of a cell. */
  predicate Truthy(c: Cell) {
    match c
    case Num(x) => x != 0.0
    case NaN => false
    case Str(s) => s != ""
    case Bool(b) => b
    case Null => false
    case Absent => false
  }

  /** The property key `acc[value]` stores a non-number value under:
      `String(value)`. */
  function PropertyKey(c: Cell): string
    requires !IsValidNumber(c)
  {
    match c
    case NaN => "NaN"
    case Str(s) => s
    case Bool(b) => if b then "true" else "false"
    case Null => "null"
    case Absent => "undefined"
  }

  /** The row adds one to `key`: its cell is truthy and stored under `key`. */
  predicate CountsToward(row: Row, column: string, key: string) {
    var c := CellAt(row, column);
    !IsValidNumber(c) && Truthy(c) && PropertyKey(c) == key
  }

  /** The number of rows that add one to `key`. */
  function Tally(rows: seq<Row>, column: string, key: string): (n: nat)
    ensures n <= |rows|
  {
    if rows == [] then 0
    else
      Tally(rows[..|rows| - 1], column, key) + if CountsToward(rows[|rows| - 1], column, key) then 1 else 0
  }

  predicate NoNumbers(rows: seq<Row>, column: string) {
    forall i :: 0 <= i < |rows| ==> !IsValidNumber(CellAt(rows[i], column))
  }

  /** A column summarised as text holds no number in any row, so the pie
      chart's column always meets the requirement of `CategoryCounts`. */
  lemma TextColumnHasNoNumbers(rows: seq<Row>, column: string)
    requires Summarize(Collect(rows, column)).TextStats?
    ensures NoNumbers(rows, column)
  {
    var values := Collect(rows, column);
    ClassifiedNumericIff(values);
    forall i | 0 <= i < |rows|
      ensures !IsValidNumber(CellAt(rows[i], column))
    {
      var c := CellAt(rows[i], column);
      if IsValidNumber(c) {
        CollectMembership(rows, column, c);
      }
    }
  }

  /** The category counts as intended: each row with a truthy cell adds one
      to that cell's key. A key is present exactly when some row counts
      toward it, and its count is the number of such rows. */
  method CategoryCounts(rows: seq<Row>, column: string) returns (counts: map<string, nat>)
    requires NoNumbers(rows, column)
    ensures forall key :: key in counts <==> Tally(rows, column, key) > 0
    ensures forall key :: key in counts ==> counts[key] == Tally(rows, column, key)
  {
    counts := map[];
    for k := 0 to |rows|
      invariant forall key :: key in counts <==> Tally(rows[..k], column, key) > 0
      invariant forall key :: key in counts ==> counts[key] == Tally(rows[..k], column, key)
    {
      assert rows[..k + 1][..k] == rows[..k];
      var value := CellAt(rows[k], column);
      if Truthy(value) {
        var key := PropertyKey(value);
        var previous := if key in counts then counts[key] else 0;
        counts := counts[key := previous + 1];
      }
    }
    assert rows[..|rows|] == rows;
  }

  // ---------------------------------------------------------------------
  // The reducer as written: the accumulator is a plain object literal

  /** The names a plain object inherits from `Object.prototype`. Reading one
      from the accumulator before it holds an own property of that name
      yields a function (or, for `__proto__`, the prototype object): a truthy
      value that is not a number. */
  const InheritedKeys: set<string> := {
    "constructor", "hasOwnProperty", "isPrototypeOf", "propertyIsEnumerable",
    "toLocaleString", "toString", "valueOf", "__defineGetter__",
    "__defineSetter__", "__lookupGetter__", "__lookupSetter__", "__proto__"
  }

  /** What an own property of the accumulator holds: a count, or the string
      that `+ 1` produces from a non-number operand. */
  datatype Slot = Count(n: nat) | Garbled

  /** `acc[value] = (acc[value] || 0) + 1` on the property `key`, given what
      it held before (None: no own property). Assigning a string to
      `__proto__` is ignored, so that key never becomes an own property. */
  function Bump(previous: Option<Slot>, key: string): (next: Option<Slot>)
    ensures key == "__proto__" <==> next == None
  {
    if key == "__proto__" then None
    else
      match previous
      case None => if key in InheritedKeys then Some(Garbled) else Some(Count(1))
      case Some(Count(n)) => Some(Count(n + 1))
      case Some(Garbled) => Some(Garbled)
  }

  /** The own property `key` of the accumulator after the reducer has seen
      `rows`. */
  function SlotAfter(rows: seq<Row>, column: string, key: string): Option<Slot> {
    if rows == [] then None
    else
      var previous := SlotAfter(rows[..|rows| - 1], column, key);
      if CountsToward(rows[|rows| - 1], column, key) then Bump(previous, key) else previous
  }

  /** Off the prototype's names the reducer counts as intended: the property
      exists exactly when some row counts toward it, and holds that number
      of rows. */
  lemma {:induction false} AsWrittenCountsOrdinaryKeys(rows: seq<Row>, column: string, key: string)
    requires key !in InheritedKeys
    ensures SlotAfter(rows, column, key) ==
      if Tally(rows, column, key) > 0 then Some(Count(Tally(rows, column, key))) else None
  {
    if rows != [] {
      AsWrittenCountsOrdinaryKeys(rows[..|rows| - 1], column, key);
    }
  }

  /** On an inherited name the first increment already yields a string, and
      every later one keeps it a string; `__proto__` is never stored. */
  lemma {:induction false} AsWrittenGarblesInheritedKeys(rows: seq<Row>, column: string, key: string)
    requires key in InheritedKeys
    ensures SlotAfter(rows, column, key) ==
      if key != "__proto__" && Tally(rows, column, key) > 0 then Some(Garbled) else None
  {
    if rows != [] {
      AsWrittenGarblesInheritedKeys(rows[..|rows| - 1], column, key);
    }
  }

  /** A single row whose category is "constructor": intended count 1, but
      the reducer stores a string there. */
  lemma ConstructorCategoryMiscounted(rows: seq<Row>)
    requires rows == [map["category" := Str("constructor")]]
    ensures Tally(rows, "category", "constructor") == 1
    ensures SlotAfter(rows, "category", "constructor") == Some(Garbled)
  {
    assert rows[..0] == [];
    assert CountsToward(rows[0], "category", "constructor");
  }

  /** The reducer as written, on the object literal `{}`: every own property
      it creates is the one `SlotAfter` describes. */
  method CategoryCountsAsWritten(rows: seq<Row>, column: string) returns (acc: map<string, Slot>)
    requires NoNumbers(rows, column)
    ensures forall key :: key in acc <==> SlotAfter(rows, column, key).Some?
    ensures forall key :: key in acc ==> SlotAfter(rows, column, key) == Some(acc[key])
  {
    acc := map[];
    for k := 0 to |rows|
      invariant forall key :: key in acc <==> SlotAfter(rows[..k], column, key).Some?
      invariant forall key :: key in acc ==> SlotAfter(rows[..k], column, key) == Some(acc[key])
    {
      assert rows[..k + 1][..k] == rows[..k];
      var value := CellAt(rows[k], column);
      ghost var before := acc;
      ghost var counted: Option<string> := if Truthy(value) then Some(PropertyKey(value)) else None;
      ghost var outcome: Option<Slot> := None;
      if Truthy(value) {
        var key := PropertyKey(value);
        var previous := if key in acc then Some(acc[key]) else None;
        assert previous == SlotAfter(rows[..k], column, key);
        var next := Bump(previous, key);
        if next.Some? {
          acc := acc[key := next.value];
        } else {
          AsWrittenGarblesInheritedKeys(rows[..k], column, key);
        }
        outcome := next;
      }
      assert counted.Some? ==> outcome == Bump(SlotAfter(rows[..k], column, counted.value), counted.value);
      assert counted.Some? ==> (counted.value in acc <==> outcome.Some?);
      assert counted.Some? && outcome.Some? ==> acc[counted.value] == outcome.value;
      forall other | other in acc || SlotAfter(rows[..k + 1], column, other).Some?
        ensures other in acc && SlotAfter(rows[..k + 1], column, other) == Some(acc[other])
      {
        assert CountsToward(rows[k], column, other) <==> counted == Some(other);
        assert SlotAfter(rows[..k + 1], column, other) ==
          if counted == Some(other) then Bump(SlotAfter(rows[..k], column, other), other)
          else SlotAfter(rows[..k], column, other);
        if counted != Some(other) {
          assert other in acc <==> other in before;
          assert other in acc ==> acc[other] == before[other];
        }
      }
    }
    assert rows[..|rows|] == rows;
  }
}
