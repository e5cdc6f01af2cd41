/** The byte one-hot encoder of src/main.rs (`sentence_to_tensor`): the first 32
    bytes of a message, each as one set entry in its own block of 256. */
module Encoder {
  import opened Utf8

  const INPUT_BYTES := 32
  /** One entry for every value of every byte position. */
  const INPUT_SIZE := INPUT_BYTES * 256

  function Min(a: int, b: int): int {
    if a < b then a else b
  }

  /** How many leading bytes the encoder uses. */
  function Consumed(bytes: seq<byte>): (m: nat)
    ensures m <= INPUT_BYTES && m <= |bytes|
    ensures m == INPUT_BYTES || m == |bytes|
  {
    Min(INPUT_BYTES, |bytes|)
  }

  /** Entry `k` of the vector once the first `n` bytes have been written. */
  function EntryAfter(bytes: seq<byte>, n: nat, k: nat): real
    requires n <= |bytes|
  {
    if k / 256 < n && bytes[k / 256] == k % 256 then 1.0 else 0.0
  }

  /** The encoding: the vector after all consumed bytes have been written. */
  function OneHot(bytes: seq<byte>): (t: seq<real>)
    ensures |t| == INPUT_SIZE
  {
    seq(INPUT_SIZE, k requires 0 <= k < INPUT_SIZE => EntryAfter(bytes, Consumed(bytes), k))
  }

  /** The position written for byte `i`. */
  function Slot(bytes: seq<byte>, i: nat): int
    requires i < |bytes|
  {
    i * 256 + bytes[i]
  }

  /** `sentence_to_tensor`: zero a vector of `INPUT_SIZE` entries, then set entry
      `i * 256 + b` for the byte `b` at each position `i` below 32. */
  method SentenceToTensor(s: string) returns (tensor: seq<real>)
    ensures tensor == OneHot(Encode(s))
  {
    var tmp := new real[INPUT_SIZE](_ => 0.0);
    var bytes := Encode(s);
    var i := 0;
    while i < |bytes|
      invariant i <= |bytes| && i <= INPUT_BYTES
      invariant forall k :: 0 <= k < INPUT_SIZE ==> tmp[k] == EntryAfter(bytes, i, k)
    {
      if i >= 32 { break; }
      var b := bytes[i];
      tmp[i * 256 + b] := 1.0;
      i := i + 1;
    }
    tensor := tmp[..];
  }

  /** Layout: entry `k` is 1 exactly when it is the slot of a consumed byte, and
      every entry is 0 or 1. */
  lemma OneHotEntry(bytes: seq<byte>, k: nat)
    requires k < INPUT_SIZE
    ensures OneHot(bytes)[k] == 1.0 || OneHot(bytes)[k] == 0.0
    ensures OneHot(bytes)[k] == 1.0 <==>
      exists i :: 0 <= i < Consumed(bytes) && k == Slot(bytes, i)
  {
    if OneHot(bytes)[k] == 1.0 {
      assert k == Slot(bytes, k / 256);
    }
    if exists i :: 0 <= i < Consumed(bytes) && k == Slot(bytes, i) {
      var i :| 0 <= i < Consumed(bytes) && k == Slot(bytes, i);
      assert k / 256 == i && k % 256 == bytes[i];
    }
  }

  /** Every write lands inside the vector, and the entry it writes reads 1. */
  lemma SlotIsSet(bytes: seq<byte>, i: nat)
    requires i < Consumed(bytes)
    ensures 0 <= Slot(bytes, i) < INPUT_SIZE
    ensures OneHot(bytes)[Slot(bytes, i)] == 1.0
  {
    OneHotEntry(bytes, Slot(bytes, i));
  }

  /** Each block of 256 entries holds at most one 1. */
  lemma AtMostOnePerBlock(bytes: seq<byte>, i: nat, x: byte, y: byte)
    requires i < INPUT_BYTES
    requires OneHot(bytes)[i * 256 + x] == 1.0 && OneHot(bytes)[i * 256 + y] == 1.0
    ensures x == y
  {
    OneHotEntry(bytes, i * 256 + x);
    OneHotEntry(bytes, i * 256 + y);
    var ix :| 0 <= ix < Consumed(bytes) && i * 256 + x == Slot(bytes, ix);
    var iy :| 0 <= iy < Consumed(bytes) && i * 256 + y == Slot(bytes, iy);
    assert ix == i && iy == i;
  }

  /** Number of entries that are 1. */
  function Ones(t: seq<real>): nat {
    if t == [] then 0 else Ones(t[..|t| - 1]) + (if t[|t| - 1] == 1.0 then 1 else 0)
  }

  lemma {:induction false} OnesAppend(a: seq<real>, b: seq<real>)
    ensures Ones(a + b) == Ones(a) + Ones(b)
    decreases |b|
  {
    if b != [] {
      assert (a + b)[..|a + b| - 1] == a + b[..|b| - 1];
      assert (a + b)[|a + b| - 1] == b[|b| - 1];
      OnesAppend(a, b[..|b| - 1]);
    } else {
      assert a + b == a;
    }
  }

  /** A block with a 1 at position `j` only (or none, if `j` is out of range). */
  function UnitBlock(n: nat, j: int): seq<real> {
    seq(n, x requires 0 <= x < n => if x == j then 1.0 else 0.0)
  }

  lemma {:induction false} OnesUnitBlock(n: nat, j: int)
    ensures Ones(UnitBlock(n, j)) == if 0 <= j < n then 1 else 0
  {
    if n > 0 {
      assert UnitBlock(n, j)[..n - 1] == UnitBlock(n - 1, j);
      OnesUnitBlock(n - 1, j);
    }
  }

  /** The first `i` blocks hold as many 1s as there are consumed bytes among them. */
  lemma {:induction false} OnesOfBlocks(bytes: seq<byte>, i: nat)
    requires i <= INPUT_BYTES
    ensures Ones(OneHot(bytes)[..i * 256]) == Min(i, Consumed(bytes))
  {
    if i > 0 {
      var t := OneHot(bytes);
      var j := i - 1;
      var block := t[j * 256..j * 256 + 256];
      assert t[..i * 256] == t[..j * 256] + block;
      var hot := if j < Consumed(bytes) then bytes[j] as int else -1;
      forall x | 0 <= x < 256
        ensures block[x] == UnitBlock(256, hot)[x]
      {
        assert (j * 256 + x) / 256 == j && (j * 256 + x) % 256 == x;
      }
      assert block == UnitBlock(256, hot);
      OnesAppend(t[..j * 256], block);
      OnesUnitBlock(256, hot);
      OnesOfBlocks(bytes, j);
    }
  }

  /** Count: exactly `min(32, |bytes|)` entries are set. */
  lemma OnesCount(bytes: seq<byte>)
    ensures Ones(OneHot(bytes)) == Min(INPUT_BYTES, |bytes|)
  {
    OnesOfBlocks(bytes, INPUT_BYTES);
    assert OneHot(bytes)[..INPUT_BYTES * 256] == OneHot(bytes);
  }

  /** Truncation: only the consumed prefix matters. */
  lemma Truncation(bytes: seq<byte>)
    ensures OneHot(bytes) == OneHot(bytes[..Consumed(bytes)])
  {
    var short := bytes[..Consumed(bytes)];
    assert Consumed(short) == Consumed(bytes);
    forall k | 0 <= k < INPUT_SIZE
      ensures OneHot(bytes)[k] == OneHot(short)[k]
    {
    }
  }

  /** The encoding determines the consumed prefix and nothing more: two byte
      sequences encode alike exactly when their first 32 bytes agree. */
  lemma OneHotInjective(a: seq<byte>, b: seq<byte>)
    ensures OneHot(a) == OneHot(b) <==> a[..Consumed(a)] == b[..Consumed(b)]
  {
    if OneHot(a) == OneHot(b) {
      forall i | 0 <= i < Consumed(a)
        ensures i < Consumed(b) && b[i] == a[i]
      {
        SameSlot(a, b, i);
      }
      forall i | 0 <= i < Consumed(b)
        ensures i < Consumed(a) && a[i] == b[i]
      {
        SameSlot(b, a, i);
      }
      if Consumed(a) > 0 { SameSlot(a, b, Consumed(a) - 1); }
      if Consumed(b) > 0 { SameSlot(b, a, Consumed(b) - 1); }
    }
    if a[..Consumed(a)] == b[..Consumed(b)] {
      Truncation(a);
      Truncation(b);
    }
  }

  lemma SameSlot(a: seq<byte>, b: seq<byte>, i: nat)
    requires OneHot(a) == OneHot(b) && i < Consumed(a)
    ensures i < Consumed(b) && b[i] == a[i]
  {
    SlotIsSet(a, i);
    OneHotEntry(b, Slot(a, i));
    var j :| 0 <= j < Consumed(b) && Slot(a, i) == Slot(b, j);
    assert j == Slot(a, i) / 256;
  }

  /** The empty string encodes as all zeros. */
  lemma EmptyIsZero()
    ensures OneHot(Encode("")) == seq(INPUT_SIZE, _ => 0.0)
    ensures Ones(OneHot(Encode(""))) == 0
  {
    OnesCount([]);
  }

  function Repeat(c: char, n: nat): (s: string)
    ensures |s| == n && forall i :: 0 <= i < n ==> s[i] == c
  {
    if n == 0 then [] else [c] + Repeat(c, n - 1)
  }

  /** Bytes after the first 32 never reach the tensor. */
  lemma OnlyPrefixMatters(a: seq<byte>, b: seq<byte>)
    requires |a| >= INPUT_BYTES
    ensures OneHot(a + b) == OneHot(a)
  {
    assert (a + b)[..INPUT_BYTES] == a[..INPUT_BYTES];
    OneHotInjective(a + b, a);
  }

  /** Forty 'A's encode the same as thirty-two. */
  lemma FortyAsLikeThirtyTwo()
    ensures OneHot(Encode(Repeat('A', 40))) == OneHot(Encode(Repeat('A', 32)))
  {
    assert Repeat('A', 40) == Repeat('A', 32) + Repeat('A', 8);
    EncodeAppend(Repeat('A', 32), Repeat('A', 8));
    OnlyPrefixMatters(Encode(Repeat('A', 32)), Encode(Repeat('A', 8)));
  }
}
