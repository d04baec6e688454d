/** Bytes, optional values and sequence facts shared by every module of the model. */
module Bytes {

  type Byte = b: int | 0 <= b < 256

  const TAB: Byte := 9
  const LF: Byte := 10
  const CR: Byte := 13
  const SPACE: Byte := 32

  /** The longest value a variable may be assigned. */
  const MAX_ASSIGNMENT_VALUE_LEN: nat := 64 * 1024

  predicate IsBlank(b: Byte) {
    b == SPACE || b == TAB
  }

  function Uppercase(b: Byte): Byte {
    if 97 <= b <= 122 then b - 32 else b
  }

  function Lowercase(b: Byte): Byte {
    if 65 <= b <= 90 then b + 32 else b
  }

  datatype Option<+T> = None | Some(value: T)

  datatype Result<+T, +E> = Ok(value: T) | Err(error: E) {
    predicate IsFailure() {
      Err?
    }

    function PropagateFailure<U>(): Result<U, E>
      requires Err?
    {
      Err(error)
    }

    function Extract(): T
      requires Ok?
    {
      value
    }
  }

  function Min(a: int, b: int): int {
    if a <= b then a else b
  }

  function Max(a: int, b: int): int {
    if a >= b then a else b
  }

  function Reverse<T>(s: seq<T>): (r: seq<T>)
    ensures |r| == |s|
    ensures forall i :: 0 <= i < |s| ==> r[i] == s[|s| - 1 - i]
  {
    seq(|s|, i requires 0 <= i < |s| => s[|s| - 1 - i])
  }

  predicate IsSuffix<T(==)>(suffix: seq<T>, s: seq<T>) {
    |suffix| <= |s| && s[|s| - |suffix|..] == suffix
  }

  /** The concatenation of a sequence of chunks. */
  function Flatten<T>(chunks: seq<seq<T>>): seq<T> {
    if chunks == [] then [] else chunks[0] + Flatten(chunks[1..])
  }

  lemma {:induction false} FlattenAppend<T>(a: seq<seq<T>>, b: seq<seq<T>>)
    ensures Flatten(a + b) == Flatten(a) + Flatten(b)
  {
    if a == [] {
      assert a + b == b;
    } else {
      assert (a + b)[1..] == a[1..] + b;
      FlattenAppend(a[1..], b);
    }
  }

  lemma FlattenNext<T>(chunks: seq<seq<T>>, k: nat)
    requires k < |chunks|
    ensures Flatten(chunks[..k + 1]) == Flatten(chunks[..k]) + chunks[k]
    ensures |Flatten(chunks[..k + 1])| <= |Flatten(chunks)|
  {
    TakeNext(chunks, k);
    var one: seq<seq<T>> := [chunks[k]];
    assert one[1..] == [];
    NoneRight(chunks[k]);
    assert Flatten(one) == chunks[k];
    FlattenAppend(chunks[..k], one);
    assert chunks == chunks[..k + 1] + chunks[k + 1..];
    FlattenAppend(chunks[..k + 1], chunks[k + 1..]);
  }

  /** The chunks from `i` on, joined: `Flatten` by index. */
  function JoinedFrom<T>(chunks: seq<seq<T>>, i: nat): seq<T>
    requires i <= |chunks|
    decreases |chunks| - i
  {
    if i == |chunks| then [] else chunks[i] + JoinedFrom(chunks, i + 1)
  }

  lemma {:induction false} JoinedIsFlatten<T>(chunks: seq<seq<T>>, i: nat)
    requires i <= |chunks|
    ensures JoinedFrom(chunks, i) == Flatten(chunks[i..])
    decreases |chunks| - i
  {
    if i < |chunks| {
      JoinedIsFlatten(chunks, i + 1);
      assert chunks[i..][1..] == chunks[i + 1..];
    }
  }

  /** The decimal digits of `n`, most significant first. */
  function Decimal(n: nat): (r: seq<Byte>)
    ensures 0 < |r|
  {
    if n < 10 then [48 + n] else Decimal(n / 10) + [48 + n % 10]
  }

  /** Different numbers have different digits. */
  lemma {:induction false} DecimalInjective(a: nat, b: nat)
    ensures Decimal(a) == Decimal(b) ==> a == b
  {
    if Decimal(a) == Decimal(b) {
      DecimalLength(a);
      DecimalLength(b);
      assert Decimal(a)[|Decimal(a)| - 1] == 48 + a % 10;
      assert Decimal(b)[|Decimal(b)| - 1] == 48 + b % 10;
      if 10 <= a && 10 <= b {
        assert Decimal(a)[..|Decimal(a)| - 1] == Decimal(a / 10);
        assert Decimal(b)[..|Decimal(b)| - 1] == Decimal(b / 10);
        DecimalInjective(a / 10, b / 10);
      }
    }
  }

  lemma DecimalLength(a: nat)
    ensures |Decimal(a)| == 1 <==> a < 10
  {
  }

  lemma Assoc<T>(a: seq<T>, b: seq<T>, c: seq<T>)
    ensures a + (b + c) == (a + b) + c
  {
  }

  /** Moving the first element of what is left onto the end of what is done. */
  lemma MoveOne<T>(done: seq<T>, x: T, rest: seq<T>)
    ensures done + ([x] + rest) == (done + [x]) + rest
  {
  }

  lemma NoneLeft<T>(s: seq<T>)
    ensures [] + s == s
  {
  }

  lemma NoneRight<T>(s: seq<T>)
    ensures s + [] == s
  {
  }

  lemma TakeNext<T>(s: seq<T>, k: nat)
    requires k < |s|
    ensures s[..k + 1] == s[..k] + [s[k]] && s[..k + 1][..k] == s[..k]
  {
  }

  lemma TakeAll<T>(s: seq<T>)
    ensures s[..|s|] == s
  {
  }

  lemma ReverseCons<T>(s: seq<T>)
    requires s != []
    ensures Reverse(s) == Reverse(s[1..]) + [s[0]]
    ensures Reverse(s)[..|s| - 1] == Reverse(s[1..]) && Reverse(s)[|s| - 1] == s[0]
  {
  }

  lemma ReverseTake<T>(s: seq<T>, k: nat)
    requires k <= |s|
    ensures Reverse(s)[..k] == Reverse(s[|s| - k..])
  {
  }
}
