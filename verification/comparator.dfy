/** `compareValues`: the ordering the table is sorted by.  Amounts compare
    as numbers, the two temporal columns as instants, every other column
    as lower-cased text; the direction multiplies the result by +1 or -1. */
module Comparator {
  import opened Types
  import opened JsText

  function Modifier(direction: SortDirection): real {
    if direction == Asc then 1.0 else -1.0
  }

  /** The text branch: equal after lower-casing gives 0, otherwise the
      modifier when `a > b` and its negation when not. */
  function CompareStrings(a: string, b: string, modifier: real): real {
    var aString := ToLower(a);
    var bString := ToLower(b);
    if aString == bString then 0.0
    else if Less(bString, aString) then modifier
    else -modifier
  }

  /** `compareValues(a[key], b[key], key, direction)`: zero exactly when
      the two records hold the same value in the column. */
  function CompareValues(a: Transaction, b: Transaction, key: SortKey, direction: SortDirection): (r: real)
    ensures r == 0.0 <==> SameKey(a, b, key)
  {
    var modifier := Modifier(direction);
    if key == Amount then
      (a.amount - b.amount) * modifier
    else if IsTemporalKey(key) then
      (InstantField(a, key) - InstantField(b, key)) as real * modifier
    else
      CompareStrings(TextField(a, key), TextField(b, key), modifier)
  }

  /** The ascending order of a column, stated independently of the
      arithmetic above: `a` strictly before `b`. */
  predicate KeyBefore(a: Transaction, b: Transaction, key: SortKey) {
    if key == Amount then a.amount < b.amount
    else if IsTemporalKey(key) then InstantField(a, key) < InstantField(b, key)
    else Less(ToLower(TextField(a, key)), ToLower(TextField(b, key)))
  }

  /** `a` and `b` hold the same value in the column (text up to case). */
  predicate SameKey(a: Transaction, b: Transaction, key: SortKey) {
    if key == Amount then a.amount == b.amount
    else if IsTemporalKey(key) then InstantField(a, key) == InstantField(b, key)
    else ToLower(TextField(a, key)) == ToLower(TextField(b, key))
  }

  /** `a` strictly before `b` in the given direction. */
  predicate Before(a: Transaction, b: Transaction, key: SortKey, direction: SortDirection) {
    if direction == Asc then KeyBefore(a, b, key) else KeyBefore(b, a, key)
  }

  // ---------------------------------------------------------------- lemmas

  /** The sign of the comparator: negative exactly when `a` comes first in
      the chosen direction, zero exactly when the column values agree,
      positive exactly when `b` comes first. */
  lemma CompareValuesSign(a: Transaction, b: Transaction, key: SortKey, direction: SortDirection)
    ensures CompareValues(a, b, key, direction) < 0.0 <==> Before(a, b, key, direction)
    ensures CompareValues(a, b, key, direction) == 0.0 <==> SameKey(a, b, key)
    ensures CompareValues(a, b, key, direction) > 0.0 <==> Before(b, a, key, direction)
  {
    if IsTextKey(key) {
      var x, y := ToLower(TextField(a, key)), ToLower(TextField(b, key));
      if x != y {
        LessTotal(x, y);
        if Less(x, y) { LessAsymmetric(x, y); } else { LessAsymmetric(y, x); }
      } else {
        LessIrreflexive(x);
      }
    }
  }

  /** Every record compares equal to itself. */
  lemma CompareReflexive(a: Transaction, key: SortKey, direction: SortDirection)
    ensures CompareValues(a, a, key, direction) == 0.0
  {
  }

  /** Swapping the operands negates the result. */
  lemma CompareAntisymmetric(a: Transaction, b: Transaction, key: SortKey, direction: SortDirection)
    ensures CompareValues(a, b, key, direction) == -CompareValues(b, a, key, direction)
  {
    if IsTextKey(key) {
      var x, y := ToLower(TextField(a, key)), ToLower(TextField(b, key));
      if x != y {
        LessTotal(x, y);
        if Less(x, y) { LessAsymmetric(x, y); } else { LessAsymmetric(y, x); }
      }
    }
  }

  /** Switching `asc` to `desc` negates the result. */
  lemma CompareDirection(a: Transaction, b: Transaction, key: SortKey)
    ensures CompareValues(a, b, key, Desc) == -CompareValues(a, b, key, Asc)
  {
  }

  /** "Not after" is transitive, so the comparator is a total preorder. */
  lemma CompareTransitive(a: Transaction, b: Transaction, c: Transaction, key: SortKey, direction: SortDirection)
    requires CompareValues(a, b, key, direction) <= 0.0
    requires CompareValues(b, c, key, direction) <= 0.0
    ensures CompareValues(a, c, key, direction) <= 0.0
  {
    CompareValuesSign(a, b, key, direction);
    CompareValuesSign(b, c, key, direction);
    CompareValuesSign(a, c, key, direction);
    if IsTextKey(key) {
      var x, y, z := ToLower(TextField(a, key)), ToLower(TextField(b, key)), ToLower(TextField(c, key));
      if direction == Asc {
        if Less(x, y) && Less(y, z) { LessTransitive(x, y, z); LessAsymmetric(x, z); }
        if x == z { LessIrreflexive(x); }
        if Less(x, y) && y == z { LessAsymmetric(x, z); }
        if x == y && Less(y, z) { LessAsymmetric(x, z); }
      } else {
        if Less(z, y) && Less(y, x) { LessTransitive(z, y, x); LessAsymmetric(z, x); }
        if x == z { LessIrreflexive(x); }
        if Less(z, y) && y == x { LessAsymmetric(z, x); }
        if z == y && Less(y, x) { LessAsymmetric(z, x); }
      }
    }
  }

  /** Text columns compare case-insensitively: a record may be replaced by
      one whose column differs only by case without changing any result. */
  lemma CompareCaseInsensitive(a: Transaction, a': Transaction, b: Transaction, key: SortKey, direction: SortDirection)
    requires IsTextKey(key)
    requires ToLower(TextField(a, key)) == ToLower(TextField(a', key))
    ensures CompareValues(a, a', key, direction) == 0.0
    ensures CompareValues(a, b, key, direction) == CompareValues(a', b, key, direction)
  {
  }
}
