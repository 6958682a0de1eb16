/**
 The contents of a message catalog, and the shape of the two-dimensional hash
 table through which `catgets` finds a message: TABLE_SIZE columns selected by
 (set * message) % TABLE_SIZE, each TABLE_DEPTH cells deep.
 */
module MessageIndex {

  const INT_MAX: int := 0x7fff_ffff
  const WORD: nat := 0x1_0000_0000
  const UINT_MAX: nat := 0xffff_ffff

  type Byte = b: nat | b < 256
  type Word = w: nat | w < 0x1_0000_0000

  /** A message number: a non-negative `int`. */
  type Number = n: nat | n <= 0x7fff_ffff

  /** The internal number of a set, which is one above the user's number. */
  type SetNumber = n: nat | 1 <= n <= 0x7fff_ffff witness 1

  /** A C string, without its terminating NUL. */
  type CString = s: seq<Byte> | 0 !in s

  datatype Message = Message(number: Number, text: CString)

  datatype MessageSet = MessageSet(number: SetNumber, messages: seq<Message>)

  /** One message together with the set it belongs to. */
  datatype Entry = Entry(setNo: SetNumber, msgNo: Number, text: CString)

  function SetEntries(number: SetNumber, ms: seq<Message>): (es: seq<Entry>)
    ensures |es| == |ms|
    ensures forall i :: 0 <= i < |ms| ==> es[i] == Entry(number, ms[i].number, ms[i].text)
  {
    seq(|ms|, i requires 0 <= i < |ms| => Entry(number, ms[i].number, ms[i].text))
  }

  /** The messages in the order in which the writer's nested loops meet them. */
  function Entries(sets: seq<MessageSet>): seq<Entry>
  {
    if sets == [] then []
    else Entries(sets[..|sets| - 1])
         + SetEntries(sets[|sets| - 1].number, sets[|sets| - 1].messages)
  }

  lemma EntriesStep(sets: seq<MessageSet>, i: nat)
    requires i < |sets|
    ensures Entries(sets[..i + 1]) == Entries(sets[..i]) + SetEntries(sets[i].number, sets[i].messages)
  {
    assert sets[..i + 1][..i] == sets[..i];
  }

  ghost predicate DistinctKeys(es: seq<Entry>)
  {
    forall i, j :: 0 <= i < j < |es| ==> es[i].setNo != es[j].setNo || es[i].msgNo != es[j].msgNo
  }

  /** The plain map that the table is an index for. */
  ghost function MessageMap(es: seq<Entry>): map<(nat, nat), CString>
  {
    if es == [] then map[]
    else var e := es[|es| - 1]; MessageMap(es[..|es| - 1])[(e.setNo, e.msgNo) := e.text]
  }

  lemma {:induction false} MessageMapContents(es: seq<Entry>)
    requires DistinctKeys(es)
    ensures forall i :: 0 <= i < |es| ==>
              (es[i].setNo, es[i].msgNo) in MessageMap(es) && MessageMap(es)[(es[i].setNo, es[i].msgNo)] == es[i].text
    ensures forall k :: k in MessageMap(es) ==> exists i :: 0 <= i < |es| && k == (es[i].setNo, es[i].msgNo)
  {
    if es != [] {
      var init := es[..|es| - 1];
      MessageMapContents(init);
      forall k | k in MessageMap(es)
        ensures exists i :: 0 <= i < |es| && k == (es[i].setNo, es[i].msgNo)
      {
        if k in MessageMap(init) {
          var i :| 0 <= i < |init| && k == (init[i].setNo, init[i].msgNo);
          assert k == (es[i].setNo, es[i].msgNo);
        } else {
          assert k == (es[|es| - 1].setNo, es[|es| - 1].msgNo);
        }
      }
    }
  }

  // ----- Hashing -----

  /** The `int` product of a set and a message number, wrapped to 32 bits and
      then converted to a 64-bit `size_t` (a negative product is sign-extended). */
  function Product(setNo: nat, msgNo: nat): nat
  {
    var p := (setNo * msgNo) % 0x1_0000_0000;
    if p <= INT_MAX then p else p + 0xffff_ffff_0000_0000
  }

  function Bucket(size: nat, setNo: nat, msgNo: nat): (b: nat)
    requires size > 0
    ensures b < size
  {
    Product(setNo, msgNo) % size
  }

  /** `p` is what the `int` product with the value `x` becomes as a 64-bit `size_t`: congruent to
      it modulo 2^32, and one of the 2^32 values that a signed 32-bit number can become. */
  ghost predicate IsHash(p: nat, x: nat)
  {
    p % WORD == x % WORD && (p <= INT_MAX || 0xffff_ffff_8000_0000 <= p <= 0xffff_ffff_ffff_ffff)
  }

  /** The hash is that of the product of the two numbers, and nothing else; as long as it does
      not overflow an `int` it is the product itself. */
  lemma HashIsProduct(setNo: nat, msgNo: nat)
    ensures forall p: nat :: IsHash(p, setNo * msgNo) <==> p == Product(setNo, msgNo)
    ensures setNo * msgNo <= INT_MAX ==> Product(setNo, msgNo) == setNo * msgNo
  {
    var x := setNo * msgNo;
    assert Product(setNo, msgNo) == if x % WORD <= INT_MAX then x % WORD else x % WORD + 0xffff_ffff_0000_0000;
    hide Product;
  }

  /** The messages whose hash leaves the rest `r`. */
  ghost function Alike(es: seq<Entry>, size: nat, r: nat): set<nat>
    requires size > 0
  {
    set i: nat | i < |es| && LeavesRest(es[i], size, r)
  }

  ghost predicate LeavesRest(e: Entry, size: nat, r: nat)
    requires size > 0
  {
    exists p: nat :: IsHash(p, e.setNo * e.msgNo) && p % size == r
  }

  lemma RestIsBucket(e: Entry, size: nat, r: nat)
    requires size > 0
    ensures LeavesRest(e, size, r) <==> Bucket(size, e.setNo, e.msgNo) == r
    ensures e.setNo * e.msgNo <= INT_MAX ==> (LeavesRest(e, size, r) <==> (e.setNo * e.msgNo) % size == r)
  {
    HashIsProduct(e.setNo, e.msgNo);
    hide IsHash, Product;
    assert IsHash(Product(e.setNo, e.msgNo), e.setNo * e.msgNo);
  }

  /** How many of `es` fall into column `b`. */
  ghost function Count(es: seq<Entry>, size: nat, b: nat): nat
    requires size > 0
  {
    if es == [] then 0
    else
      Count(es[..|es| - 1], size, b)
      + if Bucket(size, es[|es| - 1].setNo, es[|es| - 1].msgNo) == b then 1 else 0
  }

  lemma {:induction false} CountPrefix(es: seq<Entry>, n: nat, size: nat, b: nat)
    requires size > 0 && n <= |es|
    ensures Count(es[..n], size, b) <= Count(es, size, b) <= |es|
  {
    if es == [] {
    } else if n == |es| {
      assert es[..n] == es;
      CountPrefix(es[..n - 1], n - 1, size, b);
    } else {
      assert es[..|es| - 1][..n] == es[..n];
      CountPrefix(es[..|es| - 1], n, size, b);
    }
  }

  /** The count of a column is the number of messages whose products leave its rest. */
  lemma {:induction false} CountIsAlike(es: seq<Entry>, size: nat, b: nat)
    requires size > 0
    ensures Count(es, size, b) == |Alike(es, size, b)|
  {
    if es != [] {
      var n, front := |es| - 1, es[..|es| - 1];
      CountIsAlike(front, size, b);
      RestIsBucket(es[n], size, b);
      hide LeavesRest;
      assert Alike(es, size, b) == Alike(front, size, b) + if LeavesRest(es[n], size, b) then {n} else {};
    }
  }

  /** The largest of 1 and the first `n` column counts. */
  ghost function DepthUpTo(es: seq<Entry>, size: nat, n: nat): (d: nat)
    requires size > 0
    ensures d >= 1
  {
    if n == 0 then 1
    else
      var d := DepthUpTo(es, size, n - 1);
      if Count(es, size, n - 1) > d then Count(es, size, n - 1) else d
  }

  /** The depth a table of `size` columns needs. */
  ghost function Depth(es: seq<Entry>, size: nat): (d: nat)
    requires size > 0
    ensures d >= 1
  {
    DepthUpTo(es, size, size)
  }

  /** The space a table of `size` columns needs. */
  ghost function Total(es: seq<Entry>, size: nat): nat
    requires size > 0
  {
    size * Depth(es, size)
  }

  /** Depth is the maximum of 1 and the column counts: an upper bound of both ... */
  lemma {:induction false} DepthUpToBounds(es: seq<Entry>, size: nat, n: nat)
    requires size > 0
    ensures forall b :: 0 <= b < n ==> Count(es, size, b) <= DepthUpTo(es, size, n)
    ensures DepthUpTo(es, size, n) == 1 || exists b :: 0 <= b < n && Count(es, size, b) == DepthUpTo(es, size, n)
  {
    if n > 0 {
      DepthUpToBounds(es, size, n - 1);
      var c, d, d' := Count(es, size, n - 1), DepthUpTo(es, size, n - 1), DepthUpTo(es, size, n);
      assert d' == if c > d then c else d;
      hide Count, DepthUpTo;
      if c <= d && d != 1 {
        var b :| 0 <= b < n - 1 && Count(es, size, b) == d;
        assert exists k :: 0 <= k < n && Count(es, size, k) == d' by { assert 0 <= b < n; }
      } else if c > d {
        var b := n - 1;
        assert exists k :: 0 <= k < n && Count(es, size, k) == d' by { assert 0 <= b < n && Count(es, size, b) == d'; }
      }
    }
  }

  /** ... and the least such bound. */
  lemma DepthIsLargestBucket(es: seq<Entry>, size: nat, d: nat)
    requires size > 0
    requires d >= 1 && forall b :: 0 <= b < size ==> Count(es, size, b) <= d
    requires d == 1 || exists b :: 0 <= b < size && Count(es, size, b) == d
    ensures d == Depth(es, size)
  {
    DepthUpToBounds(es, size, size);
  }

  /** `d` is the largest number of messages whose products leave the same rest, or 1. */
  ghost predicate MostAlike(es: seq<Entry>, size: nat, d: nat)
    requires size > 0
  {
    && d >= 1 && (forall r: nat :: r < size ==> |Alike(es, size, r)| <= d)
    && (d == 1 || exists r: nat :: r < size && |Alike(es, size, r)| == d)
  }

  lemma DepthIsMostAlike(es: seq<Entry>, size: nat)
    requires size > 0
    ensures MostAlike(es, size, Depth(es, size))
  {
    hide Alike, Count;
    DepthUpToBounds(es, size, size);
    forall r: nat | r < size ensures |Alike(es, size, r)| == Count(es, size, r) {
      CountIsAlike(es, size, r);
    }
    var d := Depth(es, size);
    if d != 1 {
      var r: nat :| r < size && Count(es, size, r) == d;
      assert |Alike(es, size, r)| == d;
    }
  }

  lemma DepthAtMostLength(es: seq<Entry>, size: nat)
    requires size > 0
    ensures Depth(es, size) <= if es == [] then 1 else |es|
  {
    DepthUpToBounds(es, size, size);
    forall b ensures Count(es, size, b) <= |es| {
      CountPrefix(es, 0, size, b);
    }
  }
}
