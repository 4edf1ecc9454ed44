/**
 Lexicographic order on sequences, as used by a dataframe sort on string
 columns (strings compare by code point, which is also the order of their
 UTF-8 bytes) and on several sort columns at once.
 */
module Collation {

  /** `lt` is a strict total order. */
  ghost predicate StrictTotal<T(!new)>(lt: (T, T) -> bool) {
    && (forall x :: !lt(x, x))
    && (forall x, y, z :: lt(x, y) && lt(y, z) ==> lt(x, z))
    && (forall x, y :: x != y ==> lt(x, y) || lt(y, x))
  }

  /** `a` is a prefix of `b` or is smaller at the first position where they differ. */
  function LexLe<T(==)>(a: seq<T>, b: seq<T>, lt: (T, T) -> bool): bool {
    if |a| == 0 then true
    else if |b| == 0 then false
    else if a[0] != b[0] then lt(a[0], b[0])
    else LexLe(a[1..], b[1..], lt)
  }

  lemma {:induction false} LexLeReflexive<T>(a: seq<T>, lt: (T, T) -> bool)
    ensures LexLe(a, a, lt)
  {
    if |a| > 0 {
      LexLeReflexive(a[1..], lt);
    }
  }

  lemma {:induction false} LexLeTotal<T(!new)>(a: seq<T>, b: seq<T>, lt: (T, T) -> bool)
    requires StrictTotal(lt)
    ensures LexLe(a, b, lt) || LexLe(b, a, lt)
  {
    if |a| > 0 && |b| > 0 && a[0] == b[0] {
      LexLeTotal(a[1..], b[1..], lt);
    }
  }

  lemma {:induction false} LexLeAntisymmetric<T(!new)>(a: seq<T>, b: seq<T>, lt: (T, T) -> bool)
    requires StrictTotal(lt)
    requires LexLe(a, b, lt) && LexLe(b, a, lt)
    ensures a == b
  {
    if |a| > 0 && |b| > 0 {
      if a[0] == b[0] {
        LexLeAntisymmetric(a[1..], b[1..], lt);
        assert a == [a[0]] + a[1..] && b == [b[0]] + b[1..];
      }
    }
  }

  lemma {:induction false} LexLeTransitive<T(!new)>(a: seq<T>, b: seq<T>, c: seq<T>, lt: (T, T) -> bool)
    requires StrictTotal(lt)
    requires LexLe(a, b, lt) && LexLe(b, c, lt)
    ensures LexLe(a, c, lt)
  {
    if |a| > 0 && |b| > 0 && |c| > 0 && a[0] == b[0] && b[0] == c[0] {
      LexLeTransitive(a[1..], b[1..], c[1..], lt);
    }
  }

  /** Code-point order of characters. */
  function CharLt(x: char, y: char): bool {
    x < y
  }

  /** String order as a dataframe sorts a string column. */
  function StrLe(a: string, b: string): bool {
    LexLe(a, b, CharLt)
  }

  function StrLt(a: string, b: string): bool {
    StrLe(a, b) && a != b
  }

  /** Strict string order is a strict total order. */
  lemma StrLtStrictTotal()
    ensures StrictTotal(StrLt)
  {
    assert StrictTotal(CharLt);
    forall x, y, z | StrLt(x, y) && StrLt(y, z) ensures StrLt(x, z) {
      LexLeTransitive(x, y, z, CharLt);
      if x == z {
        LexLeAntisymmetric(x, y, CharLt);
      }
    }
    forall x, y | x != y ensures StrLt(x, y) || StrLt(y, x) {
      LexLeTotal(x, y, CharLt);
    }
  }

  /** Order of rows on several string sort columns, the first column deciding first. */
  function FieldsLe(a: seq<string>, b: seq<string>): bool {
    LexLe(a, b, StrLt)
  }
}
