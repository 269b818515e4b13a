/** The helpers of engine/tmp_utils.h; compiler/tmp_utils.h holds a verbatim copy of
    is_pow_2, index_of_type and the two stream operators, modelled by the same members. */
module Utils {

  // ---------------------------------------------------------------------------
  // Bitwise AND and powers of two

  /** C++ `a & b` on non-negative operands, defined bit by bit from the least
      significant bit up. */
  function BitAnd(a: nat, b: nat): (r: nat)
    ensures r <= a && r <= b
    decreases a
  {
    if a == 0 || b == 0 then 0 else 2 * BitAnd(a / 2, b / 2) + (a % 2) * (b % 2)
  }

  function Pow2(k: nat): (r: nat)
    ensures r >= 1
  {
    if k == 0 then 1 else 2 * Pow2(k - 1)
  }

  /** Reference definition: n is 1, 2, 4, 8, ... */
  ghost predicate IsPowerOfTwo(n: nat)
    decreases n
  {
    n == 1 || (n > 1 && n % 2 == 0 && IsPowerOfTwo(n / 2))
  }

  /** is_pow_2(N): `N && (N & (N - 1)) == 0`, for a non-negative int argument. */
  predicate IsPow2(n: nat)
  {
    n != 0 && BitAnd(n, n - 1) == 0
  }

  lemma {:induction false} BitAndSelf(m: nat)
    ensures BitAnd(m, m) == m
    decreases m
  {
    if m != 0 {
      BitAndSelf(m / 2);
    }
  }

  /** The bit trick of is_pow_2 recognises exactly the powers of two. */
  lemma {:induction false} IsPow2Correct(n: nat)
    ensures IsPow2(n) <==> IsPowerOfTwo(n)
    decreases n
  {
    if n >= 2 {
      var m := n / 2;
      if n % 2 == 0 {
        BitAndOfEven(n);
        IsPow2Correct(m);
      } else {
        BitAndSelf(m);
        BitAndOfOdd(n);
      }
    }
  }

  lemma BitAndOfEven(n: nat)
    requires n >= 2 && n % 2 == 0
    ensures BitAnd(n, n - 1) == 2 * BitAnd(n / 2, n / 2 - 1)
  {
    assert (n - 1) / 2 == n / 2 - 1 && n % 2 == 0;
  }

  lemma BitAndOfOdd(n: nat)
    requires n >= 2 && n % 2 == 1
    ensures BitAnd(n, n - 1) == 2 * BitAnd(n / 2, n / 2)
  {
    assert (n - 1) / 2 == n / 2 && (n - 1) % 2 == 0;
  }

  lemma {:induction false} Pow2IsPowerOfTwo(k: nat)
    ensures IsPowerOfTwo(Pow2(k)) && IsPow2(Pow2(k))
  {
    if k > 0 {
      Pow2IsPowerOfTwo(k - 1);
    }
    IsPow2Correct(Pow2(k));
  }

  lemma ModOfDecomposition(x: int, p: nat, a: int, rem: int)
    requires p > 0 && x == p * a + rem && 0 <= rem < p
    ensures x % p == rem && x / p == a
  {
    var q, r := x / p, x % p;
    assert p * (q - a) == rem - r;
    if q - a >= 1 {
      MulAtLeast(p, q - a);
    } else if a - q >= 1 {
      MulAtLeast(p, a - q);
    }
  }

  lemma MulAtLeast(p: nat, k: int)
    requires k >= 1
    ensures p * k >= p
  {
  }

  /** Masking with 2^k - 1 is reduction modulo 2^k: this is why modulo_capacity may
      use `&` once capacity is a power of two. */
  lemma {:induction false} MaskIsModulo(x: nat, k: nat)
    ensures BitAnd(x, Pow2(k) - 1) == x % Pow2(k)
    decreases k
  {
    if k == 0 {
      assert Pow2(k) - 1 == 0;
    } else if x == 0 {
      ModOfDecomposition(x, Pow2(k), 0, 0);
    } else {
      var p' := Pow2(k - 1);
      assert Pow2(k) == 2 * p';
      MaskIsModulo(x / 2, k - 1);
      MaskStep(x, p');
      HalvingModulo(x, p');
      assert BitAnd(x, Pow2(k) - 1) == 2 * ((x / 2) % p') + x % 2;
    }
  }

  /** One step of BitAnd against an all-ones mask 2p - 1. */
  lemma MaskStep(x: nat, p: nat)
    requires x > 0 && p >= 1
    ensures BitAnd(x, 2 * p - 1) == 2 * BitAnd(x / 2, p - 1) + x % 2
  {
    ModOfDecomposition(2 * p - 1, 2, p - 1, 1);
  }

  /** x mod 2p, from (x / 2) mod p and the low bit. */
  lemma HalvingModulo(x: nat, p: nat)
    requires p >= 1
    ensures x % (2 * p) == 2 * ((x / 2) % p) + x % 2
  {
    var q, b := (x / 2) / p, (x / 2) % p;
    assert x / 2 == p * q + b;
    assert x == (2 * p) * q + (2 * b + x % 2);
    ModOfDecomposition(x, 2 * p, q, 2 * b + x % 2);
  }

  // ---------------------------------------------------------------------------
  // round_length_to_alignment

  /** The length to give a field of `originalLen` bytes that starts `offset` bytes
      into a struct, so that the field after it (alignment `alignment`) needs no
      hidden padding. */
  function RoundLengthToAlignment(originalLen: nat, alignment: nat, offset: nat, baseAlignment: nat): (r: nat)
    requires alignment > 0 && baseAlignment % alignment == 0
    ensures r >= originalLen && r - originalLen < alignment
    ensures (r + offset) % alignment == 0
  {
    var remainder := (originalLen + offset) % alignment;
    var r := originalLen + (if remainder > 0 then alignment - remainder else 0);
    ModOfDecomposition(r + offset, alignment, (originalLen + offset) / alignment + (if remainder > 0 then 1 else 0), 0);
    r
  }

  /** No shorter length would do: the padding added is the least possible. */
  lemma RoundLengthIsLeast(originalLen: nat, alignment: nat, offset: nat, baseAlignment: nat, shorter: nat)
    requires alignment > 0 && baseAlignment % alignment == 0
    requires originalLen <= shorter < RoundLengthToAlignment(originalLen, alignment, offset, baseAlignment)
    ensures (shorter + offset) % alignment != 0
  {
    var q, rem := (originalLen + offset) / alignment, (originalLen + offset) % alignment;
    assert rem > 0;
    ModOfDecomposition(shorter + offset, alignment, q, rem + (shorter - originalLen));
  }

  // ---------------------------------------------------------------------------
  // max_element

  /** The largest of the values, or 0 for none (the loop's starting value). */
  function Max(vals: seq<nat>): nat
  {
    if vals == [] then 0
    else var m := Max(vals[..|vals| - 1]); if vals[|vals| - 1] > m then vals[|vals| - 1] else m
  }

  lemma {:induction false} MaxIsGreatest(vals: seq<nat>)
    ensures forall i :: 0 <= i < |vals| ==> vals[i] <= Max(vals)
    ensures vals == [] ==> Max(vals) == 0
    ensures vals != [] ==> Max(vals) in vals
  {
    if vals != [] {
      MaxIsGreatest(vals[..|vals| - 1]);
    }
  }

  /** max_element<X...>(): a scan keeping the largest value seen so far in `ret`. */
  method MaxElement(vals: seq<nat>) returns (ret: nat)
    ensures ret == Max(vals)
    ensures forall i :: 0 <= i < |vals| ==> vals[i] <= ret
    ensures vals != [] ==> ret in vals
  {
    ret := 0;
    for i := 0 to |vals|
      invariant ret == Max(vals[..i])
    {
      assert vals[..i + 1][..i] == vals[..i];
      if vals[i] > ret {
        ret := vals[i];
      }
    }
    assert vals[..|vals|] == vals;
    MaxIsGreatest(vals);
  }

  // ---------------------------------------------------------------------------
  // conditional_value

  /** A value of one of two types: what a call of conditional_value<test> yields,
      the first alternative's type or the second's. */
  datatype Either<+L, +R> = Left(left: L) | Right(right: R)

  /** conditional_value<test>()(true_value, false_value): the primary template
      (test false) returns the second argument, the specialisation for true the
      first. */
  function ConditionalValue<T1, T2>(test: bool, trueValue: T1, falseValue: T2): (r: Either<T1, T2>)
    ensures r.Left? <==> test
    ensures r.Left? ==> r.left == trueValue
    ensures r.Right? ==> r.right == falseValue
  {
    if test then Left(trueValue) else Right(falseValue)
  }

  // ---------------------------------------------------------------------------
  // index_of_type

  /** index_of_type<T, Us...>(): the position of the first U equal to T. The C++
      recursion only terminates (compiles) when T is among the Us. */
  function IndexOfType<T(==)>(t: T, us: seq<T>): (r: nat)
    requires t in us
    ensures r < |us| && us[r] == t
    ensures forall j :: 0 <= j < r ==> us[j] != t
  {
    if us[0] == t then 0 else 1 + IndexOfType(t, us[1..])
  }

  // ---------------------------------------------------------------------------
  // operator<< for std::array and std::vector

  /** The elements separated by `sep`: the intended reading of the output. */
  function Join(parts: seq<string>, sep: string): string
  {
    if parts == [] then ""
    else if |parts| == 1 then parts[0]
    else parts[0] + sep + Join(parts[1..], sep)
  }

  /** What std::ostream_iterator(o, sep) writes: every element followed by sep. */
  function Delimited(parts: seq<string>, sep: string): string
  {
    if parts == [] then "" else Delimited(parts[..|parts| - 1], sep) + parts[|parts| - 1] + sep
  }

  function TotalLength(parts: seq<string>): nat
  {
    if parts == [] then 0 else |parts[0]| + TotalLength(parts[1..])
  }

  lemma {:induction false} DelimitedThenLast(parts: seq<string>, last: string, sep: string)
    ensures Delimited(parts, sep) + last == Join(parts + [last], sep)
  {
    if parts != [] {
      var init := parts[..|parts| - 1];
      var p := parts[|parts| - 1];
      DelimitedThenLast(init, p, sep);
      // Join(init + [p]) + sep + last == Join(init + [p, last])
      JoinSnoc(init + [p], last, sep);
      assert init + [p] == parts;
    }
  }

  lemma {:induction false} JoinSnoc(parts: seq<string>, last: string, sep: string)
    requires parts != []
    ensures Join(parts, sep) + sep + last == Join(parts + [last], sep)
  {
    if |parts| > 1 {
      JoinSnoc(parts[1..], last, sep);
      assert (parts + [last])[1..] == parts[1..] + [last];
    } else {
      assert (parts + [last])[1..] == [last];
    }
  }

  /** The text holds every element and one separator between each pair. */
  lemma {:induction false} JoinLength(parts: seq<string>, sep: string)
    ensures |Join(parts, sep)| == TotalLength(parts) + (if parts == [] then 0 else (|parts| - 1) * |sep|)
  {
    if |parts| > 1 {
      JoinLength(parts[1..], sep);
    }
  }

  /** The stream operator's body for a sequence of already rendered elements:
      `open`, then all but the last element each followed by ", ", then the last,
      then ']'. */
  method WriteSequence(open: string, elems: seq<string>) returns (s: string)
    ensures s == open + Join(elems, ", ") + "]"
  {
    s := open;
    if |elems| > 0 {
      var i := 0;
      while i < |elems| - 1
        invariant 0 <= i <= |elems| - 1
        invariant s == open + Delimited(elems[..i], ", ")
      {
        assert elems[..i + 1][..i] == elems[..i];
        s := s + elems[i] + ", ";
        i := i + 1;
      }
      DelimitedThenLast(elems[..i], elems[i], ", ");
      assert elems[..i] + [elems[i]] == elems;
      s := s + elems[i];
    }
    s := s + "]";
  }

  /** operator<<(ostream, std::array): "arr[a, b, c]", or "arr[]" when empty. */
  method FormatArray(elems: seq<string>) returns (s: string)
    ensures s == "arr[" + Join(elems, ", ") + "]"
    ensures elems == [] ==> s == "arr[]"
  {
    s := WriteSequence("arr[", elems);
  }

  /** operator<<(ostream, std::vector): "vec[a, b, c]", or "vec[]" when empty. */
  method FormatVector(elems: seq<string>) returns (s: string)
    ensures s == "vec[" + Join(elems, ", ") + "]"
    ensures elems == [] ==> s == "vec[]"
  {
    s := WriteSequence("vec[", elems);
  }
}
