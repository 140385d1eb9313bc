/** The part of Python's data model that the validators in
    `vectorizer_ai/utils.py` rely on: a handful of value kinds, their
    truthiness, the builtin `any`, equality and list membership (`==`, `in`),
    and the ordering `<=`, which raises `TypeError` on kinds it cannot order. */
module PyValues {

  newtype byte = x: int | 0 <= x < 256

  /** A Python value as the validators receive it. `bool` is a subclass of
      `int` in Python, which `Equal` and `LessEq` take into account. Floats
      are not modelled. */
  datatype Value =
    | None
    | Bool(b: bool)
    | Int(i: int)
    | Str(s: string)
    | Bytes(data: seq<byte>)

  /** Python truthiness: `None`, `False`, `0`, `""` and `b""` are falsy,
      everything else is truthy. */
  predicate Truthy(v: Value)
  {
    match v
    case None => false
    case Bool(b) => b
    case Int(i) => i != 0
    case Str(s) => s != ""
    case Bytes(d) => d != []
  }

  /** The builtin `any`: scans left to right and stops at the first truthy
      element, so it is false on the empty list. */
  function Any(xs: seq<Value>): (r: bool)
    ensures r <==> exists k :: 0 <= k < |xs| && Truthy(xs[k])
  {
    if xs == [] then false
    else if Truthy(xs[0]) then true
    else
      var rest := Any(xs[1..]);
      assert forall k :: 1 <= k < |xs| ==> xs[k] == xs[1..][k - 1];
      rest
  }

  /** Values Python treats as integers: `int` and its subclass `bool`. */
  predicate IsNumber(v: Value)
  {
    v.Bool? || v.Int?
  }

  /** The integer a number stands for (`True` is 1, `False` is 0). */
  function AsInt(v: Value): int
    requires IsNumber(v)
  {
    if v.Bool? then (if v.b then 1 else 0) else v.i
  }

  /** Python `a == b` on these kinds: numbers compare by value across `bool`
      and `int`; any other pair is equal only when it is the same value of
      the same kind (`b"a" == "a"` is false and raises nothing). */
  predicate Equal(a: Value, b: Value)
  {
    if IsNumber(a) && IsNumber(b) then AsInt(a) == AsInt(b) else a == b
  }

  /** Two values of the same Python kind. */
  predicate SameKind(a: Value, b: Value)
  {
    || (a.None? && b.None?)
    || (a.Bool? && b.Bool?)
    || (a.Int? && b.Int?)
    || (a.Str? && b.Str?)
    || (a.Bytes? && b.Bytes?)
  }

  /** `Equal` is Python's equality on one kind and plain identity of values
      there; across `bool` and `int` it is not (`True == 1`). */
  lemma EqualOnSameKind(a: Value, b: Value)
    requires SameKind(a, b)
    ensures Equal(a, b) <==> a == b
  {
  }

  /** `v in xs` for a list: compares each element with `v` in turn and stops
      at the first one that is equal. */
  function In(v: Value, xs: seq<Value>): (r: bool)
    ensures r <==> exists k :: 0 <= k < |xs| && Equal(xs[k], v)
  {
    if xs == [] then false
    else if Equal(xs[0], v) then true
    else
      var rest := In(v, xs[1..]);
      assert forall k :: 1 <= k < |xs| ==> xs[k] == xs[1..][k - 1];
      rest
  }

  /** When every element has the kind of `v`, membership is plain membership. */
  lemma {:induction false} InOnSameKind(v: Value, xs: seq<Value>)
    requires forall k :: 0 <= k < |xs| ==> SameKind(xs[k], v)
    ensures In(v, xs) <==> v in xs
  {
    if v in xs {
      var k :| 0 <= k < |xs| && xs[k] == v;
      EqualOnSameKind(xs[k], v);
    }
    if In(v, xs) {
      var k :| 0 <= k < |xs| && Equal(xs[k], v);
      EqualOnSameKind(xs[k], v);
    }
  }

  /** The result of Python's `a <= b`: a boolean, or `TypeError` when the two
      kinds cannot be ordered. */
  datatype Comparison = Ordered(holds: bool) | Unorderable

  /** The pairs of values `<=` can order: two numbers, two strings or two
      byte strings. `None` cannot be ordered, not even with itself. */
  predicate Orderable(a: Value, b: Value)
  {
    (IsNumber(a) && IsNumber(b)) || (a.Str? && b.Str?) || (a.Bytes? && b.Bytes?)
  }

  /** The code points of a string, which is what Python compares strings by. */
  function CodePoints(s: string): seq<int>
  {
    seq(|s|, k requires 0 <= k < |s| => s[k] as int)
  }

  /** The byte values of a byte string. */
  function ByteValues(d: seq<byte>): seq<int>
  {
    seq(|d|, k requires 0 <= k < |d| => d[k] as int)
  }

  /** Python's sequence comparison `a <= b`: walks both sequences, decides at
      the first position where they differ, and otherwise orders the shorter
      one first. */
  function LexLessEq(a: seq<int>, b: seq<int>): bool
  {
    if a == [] then true
    else if b == [] then false
    else if a[0] != b[0] then a[0] < b[0]
    else LexLessEq(a[1..], b[1..])
  }

  /** Lexicographic order, stated directly: `a` is a prefix of `b`, or the
      first position where they differ holds a smaller element in `a`. */
  ghost predicate LexOrdered(a: seq<int>, b: seq<int>)
  {
    a <= b || exists k :: 0 <= k < |a| && k < |b| && a[..k] == b[..k] && a[k] < b[k]
  }

  /** The element-by-element walk decides exactly the lexicographic order. */
  lemma {:induction false} LexLessEqIsLexOrder(a: seq<int>, b: seq<int>)
    ensures LexLessEq(a, b) <==> LexOrdered(a, b)
  {
    if a == [] {
      assert a <= b;
    } else if b == [] {
      assert !(a <= b);
    } else if a[0] != b[0] {
      if a[0] < b[0] {
        assert a[..0] == b[..0];
      } else {
        assert !(a <= b);
        forall k | 0 < k <= |a| && k <= |b|
          ensures a[..k] != b[..k]
        {
          assert a[..k][0] != b[..k][0];
        }
      }
    } else {
      var a', b' := a[1..], b[1..];
      LexLessEqIsLexOrder(a', b');
      assert a == [a[0]] + a' && b == [b[0]] + b';
      assert a <= b <==> a' <= b';
      if LexOrdered(a', b') && !(a' <= b') {
        var k :| 0 <= k < |a'| && k < |b'| && a'[..k] == b'[..k] && a'[k] < b'[k];
        assert a[..k + 1] == [a[0]] + a'[..k] && b[..k + 1] == [b[0]] + b'[..k];
        assert a[k + 1] < b[k + 1];
      }
      if LexOrdered(a, b) && !(a <= b) {
        var k :| 0 <= k < |a| && k < |b| && a[..k] == b[..k] && a[k] < b[k];
        assert k > 0;
        assert a'[..k - 1] == a[..k][1..] && b'[..k - 1] == b[..k][1..];
        assert a'[k - 1] < b'[k - 1];
      }
    }
  }

  /** Every sequence is `<=` itself. */
  lemma {:induction false} LexLessEqReflexive(a: seq<int>)
    ensures LexLessEq(a, a)
  {
    LexLessEqIsLexOrder(a, a);
  }

  /** Python `a <= b`: numbers by value (`bool` counts as `int`), strings by
      code points, byte strings by byte values; any other pairing raises. */
  function LessEq(a: Value, b: Value): (r: Comparison)
    ensures r.Unorderable? <==> !Orderable(a, b)
  {
    if IsNumber(a) && IsNumber(b) then Ordered(AsInt(a) <= AsInt(b))
    else if a.Str? && b.Str? then Ordered(LexLessEq(CodePoints(a.s), CodePoints(b.s)))
    else if a.Bytes? && b.Bytes? then Ordered(LexLessEq(ByteValues(a.data), ByteValues(b.data)))
    else Unorderable
  }

  /** Every value `<=` can order with itself is `<=` itself. */
  lemma LessEqReflexive(v: Value)
    requires Orderable(v, v)
    ensures LessEq(v, v) == Ordered(true)
  {
    if v.Str? {
      LexLessEqReflexive(CodePoints(v.s));
    } else if v.Bytes? {
      LexLessEqReflexive(ByteValues(v.data));
    }
  }

  /** Python's chained comparison `a <= b <= c`: evaluates `a <= b` first and
      only compares `b <= c` when that held, so a `TypeError` from the second
      comparison is not raised when the first one is false. */
  function ChainLessEq(a: Value, b: Value, c: Value): (r: Comparison)
    ensures r == Ordered(true) <==> LessEq(a, b) == Ordered(true) && LessEq(b, c) == Ordered(true)
    ensures r.Unorderable? <==> !Orderable(a, b) || (LessEq(a, b) == Ordered(true) && !Orderable(b, c))
  {
    match LessEq(a, b)
    case Unorderable => Unorderable
    case Ordered(first) => if first then LessEq(b, c) else Ordered(false)
  }
}
