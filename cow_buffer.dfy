/** A copy-on-write byte buffer (homework/hw3).
    A handle holds a byte array and a reference to a counter cell that is shared
    by every handle aliasing that array. The counter counts the OTHER sharers.
    Storage identity (the source's comparisons of slice data pointers) is array
    reference equality here. */
module Cow {

  newtype byte = b: int | 0 <= b < 256

  /** The shared counter cell behind `refCounter *int32`. */
  class Counter {
    var value: int

    constructor ()
      ensures value == 0
    {
      value := 0;
    }
  }

  class CowBuffer {
    var data: array<byte>
    var refCounter: Counter

    /** NewCOWBuffer: keeps the caller's array itself (no copy) and attaches a
        fresh counter of 0, so the new handle is the sole owner. */
    constructor (data: array<byte>)
      ensures this.data == data && data[..] == old(data[..])
      ensures fresh(refCounter) && refCounter.value == 0
    {
      this.data := data;
      refCounter := new Counter();
    }

    /** The handle value that `Clone` builds: given storage and counter cell. */
    constructor Sharing(data: array<byte>, refCounter: Counter)
      ensures this.data == data && this.refCounter == refCounter
    {
      this.data := data;
      this.refCounter := refCounter;
    }

    /** The handle's bytes as a value. */
    ghost function Bytes(): seq<byte>
      reads this, data
    {
      data[..]
    }

    /** A second handle on the same storage and the same counter cell; the
        counter goes up by exactly one and no byte is copied or changed. */
    method Clone() returns (copy: CowBuffer)
      modifies refCounter
      ensures fresh(copy)
      ensures copy.data == data && copy.refCounter == refCounter
      ensures refCounter.value == old(refCounter.value) + 1
    {
      refCounter.value := refCounter.value + 1;
      copy := new CowBuffer.Sharing(data, refCounter);
    }

    /** Gives up this handle's share: the counter drops by one only when it is
        positive, the handle is left with no bytes, and the storage it held is
        not touched. */
    method Close()
      modifies this, refCounter
      ensures refCounter == old(refCounter)
      ensures refCounter.value == if old(refCounter.value) > 0 then old(refCounter.value) - 1
                                  else old(refCounter.value)
      ensures fresh(data) && data.Length == 0
      ensures old(data)[..] == old(data[..])
    {
      if refCounter.value > 0 {
        refCounter.value := refCounter.value - 1;
      }
      data := new byte[0];
    }

    /** Writes `value` at `index`. Out of range: false and nothing changes.
        With more than one OTHER sharer (counter > 1) the handle first leaves
        the group: the old counter drops by one and the handle moves to a
        fresh copy of its bytes with a fresh counter of 0. Otherwise the write
        goes into the current storage, where every sharer sees it. */
    method Update(index: int, value: byte) returns (ok: bool)
      modifies this, data, refCounter
      ensures ok <==> 0 <= index < old(data.Length)
      ensures !ok ==> unchanged(this) && unchanged(data) && unchanged(refCounter)
      ensures ok ==> Bytes() == old(Bytes())[index := value]
      ensures ok && old(refCounter.value) > 1 ==>
                fresh(data) && fresh(refCounter) && refCounter.value == 0
                && old(refCounter).value == old(refCounter.value) - 1
                && old(data)[..] == old(data[..])
      ensures ok && old(refCounter.value) <= 1 ==>
                unchanged(this) && unchanged(refCounter) && data == old(data)
    {
      if index < 0 || index >= data.Length {
        return false;
      }
      if refCounter.value > 1 {
        refCounter.value := refCounter.value - 1;
        var copy := CloneBytes(data);
        var detached := new CowBuffer(copy);
        data, refCounter := detached.data, detached.refCounter;
      }
      data[index] := value;
      return true;
    }

    /** The handle's current storage itself, not a copy. */
    function String(): (view: array<byte>)
      reads this
      ensures view == data
    {
      data
    }
  }

  /** slices.Clone: a fresh array with the same bytes. */
  method CloneBytes(src: array<byte>) returns (dst: array<byte>)
    ensures fresh(dst) && dst[..] == src[..]
  {
    dst := new byte[src.Length](i requires 0 <= i < src.Length reads src => src[i]);
  }

  /* The sharing discipline across handles. A caller keeps `live`, the set of
     handles it has created or cloned and not yet closed. */

  /** The live handles whose counter cell is `c`. */
  ghost function Sharers(live: set<CowBuffer>, c: Counter): set<CowBuffer>
    reads live
  {
    set h | h in live && h.refCounter == c
  }

  /** Every live handle's counter holds the number of OTHER live handles on that
      counter, and handles on one counter alias one storage. */
  ghost predicate Accounted(live: set<CowBuffer>)
    reads live, set h | h in live :: h.refCounter
  {
    (forall h :: h in live ==> h.refCounter.value == |Sharers(live, h.refCounter)| - 1) &&
    (forall h1, h2 :: h1 in live && h2 in live && h1.refCounter == h2.refCounter ==> h1.data == h2.data)
  }

  /** A handle made by NewCOWBuffer joins the live set as a sole owner. */
  method TrackedNew(ghost live: set<CowBuffer>, data: array<byte>) returns (b: CowBuffer)
    requires Accounted(live)
    ensures fresh(b) && b.data == data && data[..] == old(data[..])
    ensures fresh(b.refCounter) && b.refCounter.value == 0
    ensures Accounted(live + {b})
  {
    b := new CowBuffer(data);
    forall h | h in live
      ensures h.refCounter != b.refCounter && Sharers(live + {b}, h.refCounter) == Sharers(live, h.refCounter)
    {
    }
    assert Sharers(live + {b}, b.refCounter) == {b};
  }

  /** Clone keeps every counter equal to its number of other live sharers. */
  method TrackedClone(ghost live: set<CowBuffer>, b: CowBuffer) returns (copy: CowBuffer)
    requires b in live && Accounted(live)
    modifies b.refCounter
    ensures fresh(copy) && copy.data == b.data && copy.refCounter == b.refCounter
    ensures b.refCounter.value == old(b.refCounter.value) + 1
    ensures Accounted(live + {copy})
  {
    ghost var c := b.refCounter;
    ghost var group := Sharers(live, c);
    copy := b.Clone();
    assert Sharers(live + {copy}, c) == group + {copy};
    forall h | h in live && h.refCounter != c
      ensures Sharers(live + {copy}, h.refCounter) == Sharers(live, h.refCounter)
    {
    }
  }

  /** Close keeps the accounting for the handles that stay live. */
  method TrackedClose(ghost live: set<CowBuffer>, b: CowBuffer)
    requires b in live && Accounted(live)
    modifies b, b.refCounter
    ensures b.refCounter == old(b.refCounter)
    ensures b.refCounter.value == if old(b.refCounter.value) > 0 then old(b.refCounter.value) - 1
                                  else old(b.refCounter.value)
    ensures fresh(b.data) && b.data.Length == 0
    ensures old(b.data)[..] == old(b.data[..])
    ensures Accounted(live - {b})
  {
    ghost var c := b.refCounter;
    ghost var group := Sharers(live, c);
    b.Close();
    assert Sharers(live - {b}, c) == group - {b};
    assert |group - {b}| == |group| - 1;
    forall h | h in live - {b}
      ensures h.refCounter.value == |Sharers(live - {b}, h.refCounter)| - 1
    {
      if h.refCounter != c {
        assert Sharers(live - {b}, h.refCounter) == old(Sharers(live, h.refCounter));
      }
    }
  }

  /** Update keeps the accounting whether it detaches or writes in place. */
  method TrackedUpdate(ghost live: set<CowBuffer>, b: CowBuffer, index: int, value: byte) returns (ok: bool)
    requires b in live && Accounted(live)
    modifies b, b.data, b.refCounter
    ensures ok <==> 0 <= index < old(b.data.Length)
    ensures !ok ==> unchanged(b) && unchanged(old(b.data)) && unchanged(old(b.refCounter))
    ensures ok ==> b.Bytes() == old(b.Bytes())[index := value]
    ensures ok && old(b.refCounter.value) > 1 ==>
              fresh(b.data) && fresh(b.refCounter) && b.refCounter.value == 0
              && old(b.refCounter).value == old(b.refCounter.value) - 1
              && old(b.data)[..] == old(b.data[..])
    ensures ok && old(b.refCounter.value) <= 1 ==>
              unchanged(b) && unchanged(old(b.refCounter)) && b.data == old(b.data)
    ensures Accounted(live)
  {
    ghost var c := b.refCounter;
    ghost var group := Sharers(live, c);
    ok := b.Update(index, value);
    if b.refCounter != c {
      assert Sharers(live, c) == group - {b};
      assert |group - {b}| == |group| - 1;
      assert Sharers(live, b.refCounter) == {b};
      forall h | h in live && h != b
        ensures h.refCounter != b.refCounter
        ensures h.refCounter != c ==> Sharers(live, h.refCounter) == old(Sharers(live, h.refCounter))
      {
      }
    }
  }

  /** Under the accounting, no counter of a live handle is negative. */
  lemma CountersNonNegative(live: set<CowBuffer>, b: CowBuffer)
    requires Accounted(live) && b in live
    ensures b.refCounter.value >= 0
  {
    assert b in Sharers(live, b.refCounter);
  }

  /** Under the accounting, a counter of 1 means exactly one other live handle
      on the same counter, and so on the same storage: an Update through either
      one writes in place and the other sees the byte. */
  lemma OneOtherSharer(live: set<CowBuffer>, b: CowBuffer)
    requires Accounted(live) && b in live && b.refCounter.value == 1
    ensures exists h :: h in live && h != b && h.refCounter == b.refCounter && h.data == b.data
  {
    var group := Sharers(live, b.refCounter);
    assert |group - {b}| == 1;
    var h :| h in group - {b};
  }

  /** The calls of TestCOWBuffer on "abcd" (bytes 97..100) and the results its
      assertions expect: two clones share the original storage; the first Update on the original detaches it ('g' is
      103), the two out-of-range Updates fail, the clones keep "abcd" and
      still share; after one clone closes, the other writes 'f' (102) in place. */
  method TestCowBuffer()
    returns (sharedAtStart: bool, updates: seq<bool>, buffer: seq<byte>, copy1: seq<byte>,
             copy2: seq<byte>, detached: bool, clonesShare: bool, inPlace: bool, last: seq<byte>)
    ensures sharedAtStart
    ensures updates == [true, false, false, true]
    ensures buffer == [103, 98, 99, 100] && copy1 == [97, 98, 99, 100] && copy2 == copy1
    ensures detached && clonesShare && inPlace
    ensures last == [102, 98, 99, 100]
  {
    var data := new byte[][97, 98, 99, 100];
    var b := new CowBuffer(data);
    var c1 := b.Clone();
    var c2 := b.Clone();
    sharedAtStart := b.data == data && c1.data == b.data && c2.data == c1.data
                     && b.String() == data && c1.String() == b.String() && c2.String() == c1.String();
    assert sharedAtStart && b.refCounter.value == 2;
    var u0 := b.Update(0, 103);
    assert c1.refCounter.value == 1 && c1.data[..] == [97, 98, 99, 100];
    var u1 := b.Update(-1, 103);
    var u2 := b.Update(4, 103);
    buffer, copy1, copy2 := b.data[..], c1.data[..], c2.data[..];
    assert buffer == [103, 98, 99, 100] && copy1 == [97, 98, 99, 100] && copy2 == copy1;
    detached := b.data != c1.data;
    clonesShare := c1.data == c2.data;
    c1.Close();
    assert c2.refCounter.value == 0;
    var previous := c2.data;
    var u3 := c2.Update(0, 102);
    inPlace := c2.data == previous;
    last := c2.data[..];
    assert last == [102, 98, 99, 100];
    updates := [u0, u1, u2, u3];
    c2.Close();
    b.Close();
  }

  /** With exactly two sharers the counter is 1, below the detach threshold:
      an Update through one handle writes in place and shows through the other. */
  method TwoSharersWriteInPlace() returns (writer: seq<byte>, other: seq<byte>, stillShared: bool)
    ensures writer == [120, 98] && other == writer && stillShared
  {
    var data := new byte[][97, 98];
    var b := new CowBuffer(data);
    var c := b.Clone();
    var ok := b.Update(0, 120);
    writer, other := b.data[..], c.data[..];
    stillShared := b.data == c.data;
  }

  /** A closed handle holds no bytes, so every Update on it fails. */
  method UpdateAfterClose(b: CowBuffer, index: int, value: byte) returns (ok: bool)
    modifies b, b.refCounter
    ensures !ok
  {
    b.Close();
    ok := b.Update(index, value);
  }
}
