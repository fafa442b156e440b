/** A ring buffer over a fixed array, as a bounded queue with look-ahead, patching and un-reading. */
module RingBuffers {
  import opened Options

  /** Sizes and offsets are 32-bit numbers, and so are their sums. */
  const WORD: nat := 0x1_0000_0000

  type Uint32 = n: nat | n < WORD

  function Plus(a: Uint32, b: Uint32): (s: Uint32)
    ensures s == if a + b < WORD then a + b else a + b - WORD
  {
    (a + b) % WORD
  }

  function Min(a: nat, b: nat): (m: nat)
    ensures m <= a && m <= b && (m == a || m == b)
  {
    if a < b then a else b
  }

  /** s with d written over it from position at on. */
  function Replaced<T>(s: seq<T>, at: nat, d: seq<T>): (r: seq<T>)
    requires at + |d| <= |s|
    ensures |r| == |s|
    ensures forall i :: 0 <= i < |s| ==> r[i] == if at <= i < at + |d| then d[i - at] else s[i]
  {
    s[..at] + d + s[at + |d|..]
  }

  /** s turned left by n. */
  function Rotated<T>(s: seq<T>, n: nat): (r: seq<T>)
    requires n <= |s|
    ensures |r| == |s|
    ensures forall i :: 0 <= i < |s| ==> r[i] == if i + n < |s| then s[i + n] else s[i + n - |s|]
  {
    s[n..] + s[..n]
  }

  /** What memcpy takes from place at of an array on: n elements, those past the end from the start; None if it
      leaves the array even so. */
  ghost function Taken<T>(s: seq<T>, at: nat, n: nat): Option<seq<T>>
    requires at <= |s|
  {
    var len := |s| - at;
    if n <= len then Some(s[at..at + n]) else if n - len <= |s| then Some(s[at..] + s[..n - len]) else None
  }

  /** The array after memcpy wrote d from place at on, what is past the end at the start; None if it leaves the
      array even so. */
  ghost function Pasted<T>(s: seq<T>, at: nat, d: seq<T>): Option<seq<T>>
    requires at <= |s|
  {
    var len := |s| - at;
    if |d| <= len then Some(Replaced(s, at, d))
    else if |d| - len <= |s| then Some(Replaced(Replaced(s, at, d[..len]), 0, d[len..]))
    else None
  }

  lemma RotatedBack<T>(s: seq<T>, n: nat)
    requires n <= |s|
    ensures Rotated(Rotated(s, n), |s| - n) == s
  {
  }

  /** Reading n elements, patching what is left of a queue of m, and taking the reading back:
      the queue as it was, with the patch. */
  lemma ReadBackRestores<T>(ring: seq<T>, n: nat, offset: nat, data: seq<T>, m: nat)
    requires n + offset + |data| <= m <= |ring|
    ensures Rotated(Replaced(Rotated(ring, n), offset, data), |ring| - n) == Replaced(ring, n + offset, data)
    ensures Replaced(ring, n + offset, data)[..m] == Replaced(ring[..m], n + offset, data)
  {
  }

  function Flatten<T>(pieces: seq<seq<T>>): seq<T> {
    if pieces == [] then [] else pieces[0] + Flatten(pieces[1..])
  }

  lemma {:induction false} FlattenMore<T>(pieces: seq<seq<T>>, piece: seq<T>)
    ensures Flatten(pieces + [piece]) == Flatten(pieces) + piece
    decreases |pieces|
  {
    if pieces == [] {
      assert (pieces + [piece])[1..] == [];
    } else {
      assert (pieces + [piece])[1..] == pieces[1..] + [piece];
      FlattenMore(pieces[1..], piece);
    }
  }

  function Sum(lens: seq<Uint32>): nat {
    if lens == [] then 0 else lens[0] + Sum(lens[1..])
  }

  /** The array from position r on, around its end: the ring as seen from there. */
  function RingOf<T>(s: seq<T>, r: nat): (ring: seq<T>)
    requires r <= |s|
    ensures |ring| == |s|
    ensures forall i :: 0 <= i < |s| ==> ring[i] == if r + i < |s| then s[r + i] else s[r + i - |s|]
  {
    s[r..] + s[..r]
  }

  lemma RingForward<T>(s: seq<T>, r: nat, step: nat)
    requires r <= |s| && step <= |s|
    ensures RingOf(s, if r + step >= |s| then r + step - |s| else r + step) == Rotated(RingOf(s, r), step)
  {
  }

  lemma RingBackward<T>(s: seq<T>, r: nat, step: nat)
    requires r <= |s| && step <= |s|
    ensures RingOf(s, if r < step then r + |s| - step else r - step) == Rotated(RingOf(s, r), |s| - step)
  {
  }

  /** Where the ring's i-th element lies. */
  function Place(r: nat, i: nat, size: nat): (at: nat)
    requires r < size && i <= size
    ensures at < size
  {
    if r + i >= size then r + i - size else r + i
  }

  /** Writing over the array where the ring's i-th element lies, around its end, writes over the ring. */
  lemma RingPasted<T>(s: seq<T>, r: nat, i: nat, d: seq<T>)
    requires r < |s| && i + |d| <= |s|
    ensures var t := Pasted(s, Place(r, i, |s|), d);
      t.Some? && |t.value| == |s| && RingOf(t.value, r) == Replaced(RingOf(s, r), i, d)
  {
    var at := Place(r, i, |s|);
    if |d| > |s| - at {
      RingTwoPieces(s, r, i, d);
    }
  }

  lemma RingTwoPieces<T>(s: seq<T>, r: nat, i: nat, d: seq<T>)
    requires r < |s| && i + |d| <= |s| && |s| - Place(r, i, |s|) < |d|
    ensures var len := |s| - Place(r, i, |s|);
      RingOf(Replaced(Replaced(s, |s| - len, d[..len]), 0, d[len..]), r) == Replaced(RingOf(s, r), i, d)
  {
    hide RingOf, Replaced;
    var at := Place(r, i, |s|);
    var len := |s| - at;
    var t := Replaced(Replaced(s, at, d[..len]), 0, d[len..]);
    forall k | 0 <= k < |s|
      ensures RingOf(t, r)[k] == Replaced(RingOf(s, r), i, d)[k]
    {
      var p := if r + k < |s| then r + k else r + k - |s|;
      assert t[p] == if p < |d| - len then d[len + p] else if p >= at then d[p - at] else s[p];
    }
  }

  /** Copying from where the ring's i-th element lies, around the end of the array, copies from the ring. */
  lemma RingTaken<T>(s: seq<T>, r: nat, i: nat, n: nat)
    requires r < |s| && i + n <= |s|
    ensures Taken(s, Place(r, i, |s|), n) == Some(RingOf(s, r)[i..i + n])
  {
    hide RingOf;
    var at := Place(r, i, |s|);
    var len := |s| - at;
    var piece := RingOf(s, r)[i..i + n];
    forall k | 0 <= k < n
      ensures piece[k] == if k < len then s[at + k] else s[k - len]
    {
      assert piece[k] == RingOf(s, r)[i + k];
    }
    assert piece == if n <= len then s[at..at + n] else s[at..] + s[..n - len];
  }

  lemma RotatedTake<T>(s: seq<T>, n: nat, m: nat)
    requires n <= m <= |s|
    ensures Rotated(s, n)[..m - n] == s[..m][n..]
  {
  }

  lemma RotatedGive<T>(s: seq<T>, n: nat, m: nat)
    requires n + m <= |s|
    ensures Rotated(s, |s| - n)[..m + n] == s[|s| - n..] + s[..m]
  {
  }

  class RingBuffer<T(0)> {
    var buffer: array<T>
    /** Where the next element is read and written; write may stand at the end of the array instead of at 0. */
    var read: nat
    var write: nat
    var readable: nat

    ghost predicate Valid()
      reads this
    {
      && readable <= buffer.Length < WORD
      && (read < buffer.Length || (read == 0 && buffer.Length == 0))
      && (write == End() || (write == buffer.Length && End() == 0))
    }

    /** The place behind the last element of the queue. */
    ghost function End(): int
      reads this
    {
      if read + readable < buffer.Length then read + readable else read + readable - buffer.Length
    }

    /** The whole array from the read position on: the queue, then the free space. */
    ghost function Ring(): seq<T>
      requires Valid()
      reads this, buffer
    {
      RingOf(buffer[..], read)
    }

    /** The queue. */
    ghost function Contents(): seq<T>
      requires Valid()
      reads this, buffer
    {
      Ring()[..readable]
    }

    constructor (size: Uint32)
      ensures Valid() && Contents() == [] && buffer.Length == size && fresh(buffer)
    {
      buffer := new T[size];
      read, write, readable := 0, 0, 0;
    }

    function Writable(): nat
      requires readable <= buffer.Length
      reads this
    {
      buffer.Length - readable
    }

    function ContinuouslyReadable(): (n: nat)
      requires Valid()
      reads this
      ensures n == Min(readable, buffer.Length - read)
    {
      if buffer.Length - read >= readable then readable else buffer.Length - read
    }

    /** How much of the free space lies in front of the end of the array. */
    function ContinuouslyWritable(): (n: nat)
      requires Valid()
      reads this
      ensures n <= Writable() && write + n <= buffer.Length && (n < Writable() ==> write + n == buffer.Length)
    {
      if read > write then read - write
      else if read == write && readable != 0 then 0
      else buffer.Length - write
    }

    // ---- moving the positions ----

    method ReadAdvance(step: nat)
      requires Valid() && step <= readable
      modifies this`read, this`readable
      ensures Valid() && readable == old(readable) - step && Ring() == Rotated(old(Ring()), step)
      ensures Contents() == old(Contents())[step..]
    {
      hide RingOf, Rotated;
      RingForward(buffer[..], read, step);
      RotatedTake(Ring(), step, readable);
      read := read + step;
      if read >= buffer.Length {
        read := read - buffer.Length;
      }
      readable := readable - step;
    }

    /** Take back what was read last. */
    method ReadBack(step: nat)
      requires Valid() && step <= Writable()
      modifies this`read, this`readable
      ensures Valid() && readable == old(readable) + step && Ring() == Rotated(old(Ring()), buffer.Length - step)
      ensures Contents() == old(Ring())[buffer.Length - step..] + old(Contents())
    {
      hide RingOf, Rotated;
      RingBackward(buffer[..], read, step);
      RotatedGive(Ring(), step, readable);
      ghost var ring, s := Ring(), buffer[..];
      if read < step {
        read := read + buffer.Length - step;
      } else {
        read := read - step;
      }
      readable := readable + step;
      assert buffer[..] == s && Valid();
      assert Ring() == Rotated(ring, buffer.Length - step);
    }

    method WriteAdvance(step: nat)
      requires Valid() && step <= Writable()
      modifies this`write, this`readable
      ensures Valid() && readable == old(readable) + step && Ring() == old(Ring())
      ensures Contents() == old(Contents()) + old(Ring())[old(readable)..old(readable) + step]
    {
      hide RingOf, Rotated;
      write := write + step;
      if write >= buffer.Length {
        write := write - buffer.Length;
      }
      readable := readable + step;
    }

    method WriteBack(step: nat)
      requires Valid() && step <= readable
      modifies this`write, this`readable
      ensures Valid() && readable == old(readable) - step && Ring() == old(Ring())
      ensures Contents() == old(Contents())[..old(readable) - step]
    {
      if write < step {
        write := write + buffer.Length - step;
      } else {
        write := write - step;
      }
      readable := readable - step;
    }

    // ---- memcpy ----

    method CopyIn(at: nat, data: seq<T>)
      requires at + |data| <= buffer.Length
      modifies buffer
      ensures buffer[..] == Replaced(old(buffer[..]), at, data)
    {
      var i := 0;
      while i < |data|
        invariant 0 <= i <= |data|
        invariant forall k :: 0 <= k < buffer.Length ==>
          buffer[k] == if at <= k < at + i then data[k - at] else old(buffer[k])
      {
        buffer[at + i] := data[i];
        i := i + 1;
      }
    }

    /** Write data from place at of the array on, around its end; false if that leaves the array. */
    method PasteIn(at: nat, data: seq<T>) returns (ok: bool)
      requires at <= buffer.Length
      modifies buffer
      ensures ok <==> Pasted(old(buffer[..]), at, data).Some?
      ensures ok ==> Pasted(old(buffer[..]), at, data) == Some(buffer[..])
    {
      hide Replaced;
      var len := buffer.Length - at;
      ok := true;
      if len >= |data| {
        CopyIn(at, data);
      } else if |data| - len <= buffer.Length {
        CopyIn(at, data[..len]);
        CopyIn(0, data[len..]);
      } else {
        ok := false;
      }
    }

    /** Write data over the ring from its i-th element on. */
    method Overwrite(ghost i: nat, at: nat, data: seq<T>)
      requires Valid() && i + |data| <= buffer.Length && read < buffer.Length && at == Place(read, i, buffer.Length)
      modifies buffer
      ensures Valid() && Ring() == Replaced(old(Ring()), i, data)
    {
      hide RingOf, Replaced, Pasted;
      RingPasted(buffer[..], read, i, data);
      var ok := PasteIn(at, data);
    }

    /** Copy n elements from place at of the array on, around its end; None if that leaves the array. */
    method TakeOut(at: nat, n: nat) returns (dest: Option<seq<T>>)
      requires at <= buffer.Length
      ensures dest == Taken(buffer[..], at, n)
    {
      var len := buffer.Length - at;
      if len >= n {
        dest := Some(buffer[at..at + n]);
      } else if n - len <= buffer.Length {
        dest := Some(buffer[at..] + buffer[..n - len]);
      } else {
        dest := None;
      }
    }

    /** Copy n elements of the ring from its i-th on. */
    method CopyOut(ghost i: nat, at: nat, n: nat) returns (dest: seq<T>)
      requires Valid() && i + n <= buffer.Length && read < buffer.Length && at == Place(read, i, buffer.Length)
      ensures dest == Ring()[i..i + n]
    {
      hide RingOf, Taken;
      RingTaken(buffer[..], read, i, n);
      var piece := TakeOut(at, n);
      dest := piece.value;
    }

    // ---- reading ----

    method Read(size0: Uint32) returns (dest: seq<T>)
      requires Valid()
      modifies this`read, this`readable
      ensures Valid() && dest == old(Contents())[..Min(size0, old(readable))]
      ensures Contents() == old(Contents())[|dest|..] && Ring() == Rotated(old(Ring()), |dest|)
    {
      hide RingOf, Rotated;
      var size := if size0 > readable then readable else size0;
      Turned();
      if buffer.Length > 0 {
        dest := CopyOut(0, read, size);
      } else {
        dest := [];
      }
      ReadAdvance(size);
    }

    lemma Turned()
      requires Valid()
      ensures read <= buffer.Length
      ensures readable <= buffer.Length && |Ring()| == buffer.Length && |Contents()| == readable
      ensures Contents() == Ring()[..readable] && Writable() == buffer.Length - readable
    {
    }

    /** Up to size elements of the queue behind the first offset ones. */
    ghost function Slice(size: nat, offset: nat): seq<T>
      requires Valid()
      reads this, buffer
    {
      if offset >= readable then [] else Contents()[offset..offset + Min(size, readable - offset)]
    }

    /** None: more is copied than the array holds. That, or copying what is not in the queue, happens exactly if
        the offset lies in the queue and its sum with the size does not fit 32 bits. */
    method TryRead(size0: Uint32, offset: Uint32) returns (dest: Option<seq<T>>)
      requires Valid()
      ensures dest == Some(Slice(size0, offset)) <==> offset >= readable || offset + size0 < WORD
      ensures offset < readable && offset + size0 >= WORD ==>
        read < buffer.Length && dest == Taken(buffer[..], Place(read, offset, buffer.Length), size0)
    {
      hide RingOf, Taken, Slice;
      Turned();
      SliceIs(size0, offset);
      if offset >= readable {
        return Some([]);
      }
      var size := size0;
      if Plus(offset, size) > readable {
        size := readable - offset;
      }
      var from := read + offset;
      if from >= buffer.Length {
        from := from - buffer.Length;
      }
      if offset + size0 < WORD {
        RingTaken(buffer[..], read, offset, size);
      } else {
        TakenSize(from, size);
      }
      dest := TakeOut(from, size);
    }

    lemma TakenSize(at: nat, n: nat)
      requires at <= buffer.Length
      ensures var piece := Taken(buffer[..], at, n); piece.Some? ==> |piece.value| == n
    {
    }

    /** Read into several places in turn. */
    method ReadVector(lens: seq<Uint32>) returns (pieces: seq<seq<T>>)
      requires Valid()
      modifies this`read, this`readable
      ensures Valid() && Flatten(pieces) == old(Contents())[..Min(Sum(lens), old(readable))]
      ensures Contents() == old(Contents())[Min(Sum(lens), old(readable))..]
    {
      hide *;
      Turned();
      pieces := [];
      var n := 0;
      ghost var all: seq<T>, done: nat, total := Contents(), 0, Min(Sum(lens), readable);
      FlattenNone(pieces);
      AllRead(lens, readable);
      assert lens[0..] == lens && all[0..] == all && all[..0] == [];
      while n < |lens|
        invariant 0 <= n <= |lens| && Valid() && done <= |all| && Contents() == all[done..] && readable == |all| - done
        invariant Flatten(pieces) == all[..done] && total == done + Min(Sum(lens[n..]), readable)
      {
        assert lens[n..][1..] == lens[n + 1..] && lens[n..][0] == lens[n];
        SumFirst(lens[n..], readable);
        if lens[n] != 0 {
          if readable == 0 {
            break;
          }
          ghost var k: nat := Min(lens[n], readable);
          var piece := Read(lens[n]);
          Turned();
          Split(all, done, k);
          FlattenMore(pieces, piece);
          pieces := pieces + [piece];
          done := done + k;
        }
        n := n + 1;
      }
      AllRead(lens[n..], readable);
    }

    lemma FlattenNone(pieces: seq<seq<T>>)
      requires pieces == []
      ensures Flatten(pieces) == []
    {
    }

    lemma SumFirst(lens: seq<Uint32>, room: nat)
      requires lens != []
      ensures Min(Sum(lens), room) == Min(lens[0], room) + Min(Sum(lens[1..]), room - Min(lens[0], room))
      ensures lens[0] == 0 ==> Sum(lens) == Sum(lens[1..])
      ensures Min(lens[0], room) <= room
    {
    }

    lemma Split(all: seq<T>, done: nat, n: nat)
      requires done + n <= |all|
      ensures all[done..][..n] == all[done..done + n] && all[done..][n..] == all[done + n..]
      ensures all[..done] + all[done..done + n] == all[..done + n]
    {
    }

    lemma AllRead(lens: seq<Uint32>, room: nat)
      ensures Min(Sum(lens), room) <= room && (lens == [] || room == 0 ==> Min(Sum(lens), room) == 0)
    {
    }

    // ---- writing ----

    method Write(target: seq<T>) returns (size: nat)
      requires Valid() && |target| < WORD
      modifies this`write, this`readable, buffer
      ensures Valid() && size == Min(|target|, old(Writable()))
      ensures Contents() == old(Contents()) + target[..size]
      ensures Ring() == Replaced(old(Ring()), old(readable), target[..size])
    {
      hide RingOf;
      Turned();
      size := if |target| > Writable() then Writable() else |target|;
      if size > 0 {
        if write == buffer.Length {
          Overwrite(readable, 0, target[..size]);
        } else {
          Overwrite(readable, write, target[..size]);
        }
      }
      WriteAdvance(size);
    }

    method WriteVector(pieces: seq<seq<T>>) returns (written: nat)
      requires Valid() && forall piece :: piece in pieces ==> |piece| < WORD
      modifies this`write, this`readable, buffer
      ensures Valid() && written == Min(|Flatten(pieces)|, old(Writable()))
      ensures Contents() == old(Contents()) + Flatten(pieces)[..written]
    {
      hide *;
      Turned();
      written := 0;
      var n := 0;
      ghost var all, was, room := Flatten(pieces), Contents(), Writable();
      assert pieces[0..] == pieces && all[0..] == all && all[..0] == [] && was + [] == was;
      NoneLeft(pieces);
      while n < |pieces|
        invariant 0 <= n <= |pieces| && Valid() && written <= |all| && written <= room
        invariant written == room || all[written..] == Flatten(pieces[n..])
        invariant Contents() == was + all[..written] && buffer.Length - readable + written == room
      {
        Turned();
        assert pieces[n..][1..] == pieces[n + 1..] && pieces[n..][0] == pieces[n];
        FlattenFirst(pieces[n..]);
        if |pieces[n]| != 0 {
          if Writable() == 0 {
            break;
          }
          Onward(was, all, written, pieces[n], Flatten(pieces[n + 1..]), Writable());
          var size := Write(pieces[n]);
          Turned();
          written := written + size;
        } else {
          assert pieces[n] + Flatten(pieces[n + 1..]) == Flatten(pieces[n + 1..]);
        }
        n := n + 1;
      }
      Turned();
      WroteAll(pieces[n..], all, written, room);
    }

    lemma NoneLeft(pieces: seq<seq<T>>)
      ensures pieces[|pieces|..] == []
    {
    }

    lemma FlattenFirst(pieces: seq<seq<T>>)
      requires pieces != []
      ensures Flatten(pieces) == pieces[0] + Flatten(pieces[1..])
    {
    }

    /** One more piece, as far as it fits. */
    lemma Onward(was: seq<T>, all: seq<T>, written: nat, piece: seq<T>, rest: seq<T>, room: nat)
      requires written <= |all| && all[written..] == piece + rest
      ensures written + |piece| <= |all| && all[written + |piece|..] == rest
      ensures var k := Min(|piece|, room);
        k <= |piece| && k <= room && (k < |piece| ==> k == room) &&
          (was + all[..written]) + piece[..k] == was + all[..written + k]
    {
      assert forall i :: 0 <= i < |piece| ==> all[written..][i] == piece[i];
      assert forall i :: 0 <= i < |rest| ==> all[written..][|piece| + i] == rest[i];
    }

    lemma WroteAll(rest: seq<seq<T>>, all: seq<T>, written: nat, room: nat)
      requires written <= |all| && written <= room
      requires (written == room || (rest == [] && all[written..] == Flatten(rest)))
      ensures written == Min(|all|, room)
    {
    }

    /** Write into the free space without adding to the queue. None: more is written than the array holds. */
    method TryWrite(target: seq<T>, offset: Uint32) returns (size: Option<nat>)
      requires Valid() && |target| < WORD
      modifies buffer
      ensures Valid()
      ensures size == Some(if offset >= Writable() then 0 else Min(|target|, Writable() - offset)) <==>
        offset >= Writable() || offset + |target| < WORD
      ensures offset >= Writable() ==> Ring() == old(Ring())
      ensures offset < Writable() && offset + |target| < WORD ==>
        Contents() == old(Contents()) && Ring() == Replaced(old(Ring()), readable + offset, target[..size.value])
      ensures offset < Writable() && offset + |target| >= WORD && size.Some? ==>
        size == Some(|target|) && WroteBeyond(old(buffer[..]), target, offset) == Some(buffer[..])
      ensures offset < Writable() && offset + |target| >= WORD && size.None? ==>
        WroteBeyond(old(buffer[..]), target, offset) == None
    {
      hide RingOf, Replaced, Pasted, WroteBeyond;
      Turned();
      if offset >= Writable() {
        return Some(0);
      }
      var n := |target|;
      if Plus(offset, n) > Writable() {
        n := Writable() - offset;
      }
      if offset + |target| < WORD {
        InFree(offset, target[..n]);
      } else {
        assert target[..n] == target;
      }
      var ok := WriteFree(target[..n], offset);
      size := if ok then Some(n) else None;
    }

    /** Write data into the free space, or beyond it; false if that leaves the array. */
    method WriteFree(data: seq<T>, offset: nat) returns (ok: bool)
      requires Valid() && offset < Writable()
      modifies buffer
      ensures Valid() && (ok <==> WroteBeyond(old(buffer[..]), data, offset).Some?)
      ensures ok ==> WroteBeyond(old(buffer[..]), data, offset) == Some(buffer[..])
    {
      hide Replaced, Pasted;
      if offset >= ContinuouslyWritable() {
        ok := offset - ContinuouslyWritable() + |data| <= buffer.Length;
        if ok {
          CopyIn(offset - ContinuouslyWritable(), data);
        }
      } else {
        ok := PasteIn(write + offset, data);
      }
    }

    /** The array after a write that nothing cut to the free space: in one piece from the start of the array on,
        or around its end. */
    ghost function WroteBeyond(s: seq<T>, target: seq<T>, offset: nat): Option<seq<T>>
      requires Valid() && |s| == buffer.Length && offset < Writable()
      reads this
    {
      var n := ContinuouslyWritable();
      if offset < n then Pasted(s, write + offset, target)
      else if offset - n + |target| <= |s| then Some(Replaced(s, offset - n, target))
      else None
    }

    /** A write that stays in the free space changes the ring there, and the queue not at all. */
    lemma InFree(offset: nat, data: seq<T>)
      requires Valid() && offset < Writable() && offset + |data| <= Writable()
      ensures read < buffer.Length
      ensures var s := WroteBeyond(buffer[..], data, offset);
        && s.Some? && |s.value| == buffer.Length
        && RingOf(s.value, read) == Replaced(Ring(), readable + offset, data)
        && RingOf(s.value, read)[..readable] == Contents()
    {
      hide RingOf, Replaced;
      FreePlace(offset, |data|);
      RingPasted(buffer[..], read, readable + offset, data);
      PatchedBehind(Ring(), readable, readable + offset, data);
    }

    /** Where the free space behind its first offset elements lies. */
    lemma FreePlace(offset: nat, size: nat)
      requires Valid() && offset < Writable() && offset + size <= Writable()
      ensures read < buffer.Length
      ensures var n := ContinuouslyWritable();
        var at := if offset >= n then offset - n else write + offset;
        at == Place(read, readable + offset, buffer.Length) && (offset >= n ==> at + size <= buffer.Length)
    {
    }

    lemma PatchedBehind(ring: seq<T>, m: nat, at: nat, d: seq<T>)
      requires m <= at && at + |d| <= |ring|
      ensures Replaced(ring, at, d)[..m] == ring[..m]
    {
    }

    /** Patch the queue in place. None: more is written than the array holds. */
    method ChangeWritten(offset: Uint32, data: seq<T>) returns (size: Option<nat>)
      requires Valid() && |data| < WORD
      modifies buffer
      ensures Valid()
      ensures size == Some(if offset > readable then 0 else Min(|data|, readable - offset)) <==>
        offset > readable || offset + |data| < WORD
      ensures offset > readable ==> Ring() == old(Ring())
      ensures offset <= readable && offset + |data| < WORD ==>
        && Contents() == Replaced(old(Contents()), offset, data[..size.value])
        && Ring() == Replaced(old(Ring()), offset, data[..size.value])
      ensures offset <= readable && offset + |data| >= WORD ==>
        && read < buffer.Length
        && match Pasted(old(buffer[..]), Place(read, offset, buffer.Length), data)
           case Some(s) => size == Some(|data|) && buffer[..] == s
           case None => size == None
    {
      hide RingOf, Replaced, Pasted;
      Turned();
      if offset > readable {
        return Some(0);
      }
      var n := |data|;
      if Plus(offset, n) > readable {
        n := readable - offset;
      }
      size := Some(n);
      if n > 0 {
        var from := read + offset;
        if from >= buffer.Length {
          from := from - buffer.Length;
        }
        if offset + |data| < WORD {
          RingPasted(buffer[..], read, offset, data[..n]);
          PatchedTake(Ring(), offset, data[..n], readable);
        } else {
          assert data[..n] == data;
        }
        var ok := PasteIn(from, data[..n]);
        if !ok {
          size := None;
        }
      } else {
        Unpatched(Ring(), offset, data[..n]);
        Unpatched(Contents(), offset, data[..n]);
      }
    }

    lemma PatchedTake(ring: seq<T>, offset: nat, d: seq<T>, m: nat)
      requires offset + |d| <= m <= |ring|
      ensures Replaced(ring, offset, d)[..m] == Replaced(ring[..m], offset, d)
    {
    }

    lemma Unpatched(s: seq<T>, offset: nat, d: seq<T>)
      requires d == [] && offset <= |s|
      ensures Replaced(s, offset, d) == s
    {
    }

    // ---- the pieces handed out ----

    /** The elements of two stretches of the array, one after the other. */
    ghost function Pieces(a: nat, n: nat, b: nat, m: nat): seq<T>
      requires a + n <= buffer.Length && b + m <= buffer.Length
      reads this, buffer
    {
      buffer[a..a + n] + buffer[b..b + m]
    }

    method ReadableArray() returns (a: nat, n: nat, b: nat, m: nat)
      requires Valid()
      ensures a + n <= buffer.Length && b + m <= buffer.Length && Pieces(a, n, b, m) == Contents()
    {
      a, n := read, ContinuouslyReadable();
      b, m := 0, readable - n;
    }

    method WritableArray() returns (a: nat, n: nat, b: nat, m: nat)
      requires Valid()
      ensures a + n <= buffer.Length && b + m <= buffer.Length && Pieces(a, n, b, m) == Ring()[readable..]
    {
      a, n := write, ContinuouslyWritable();
      b, m := 0, Writable() - n;
    }

    /** Two stretches with the first step elements taken off. */
    static function Stepped(a: nat, n: nat, b: nat, m: nat, step: nat): (r: (nat, nat, nat, nat))
      ensures step <= n + m ==>
        r == if step <= n then (a + step, n - step, b, m) else (a + n, 0, b + (step - n), m - (step - n))
      ensures step >= n + m ==> r == (a + n, 0, b + m, 0)
    {
      if step <= n then (a + step, n - step, b, m)
      else if step - n <= m then (a + n, 0, b + (step - n), m - (step - n))
      else (a + n, 0, b + m, 0)
    }

    /** The stretches spell that piece of the queue exactly unless the offset lies in the queue and its sum with the
        size does not fit 32 bits; then they are empty. */
    method ReadArray(size0: Uint32, offset: Uint32) returns (a: nat, n: nat, b: nat, m: nat)
      requires Valid()
      ensures a + n <= buffer.Length && b + m <= buffer.Length
      ensures Pieces(a, n, b, m) == Slice(size0, offset) <==> offset >= readable || offset + size0 < WORD
      ensures offset < readable && offset + size0 >= WORD ==> n == m == 0 && Slice(size0, offset) != []
    {
      hide *;
      Turned();
      SliceIs(size0, offset);
      if offset >= readable {
        Nothing();
        return read, 0, 0, 0;
      }
      var size := size0;
      if Plus(offset, size) > readable {
        size := readable - offset;
      }
      size := Plus(size, offset);
      Least(size, readable, buffer.Length - read);
      a, n := read, if ContinuouslyReadable() > size then size else ContinuouslyReadable();
      b, m := 0, size - n;
      Front(size, n);
      ghost var all, front := Contents(), Pieces(read, n, 0, size - n);
      if offset + size0 < WORD {
        Behind(all, size, offset, n, front);
        Shifted(n, size, offset);
      }
      var r := Stepped(a, n, b, m, offset);
      a, n, b, m := r.0, r.1, r.2, r.3;
      EmptyPieces(a, b);
    }

    /** For instance, asked for all behind the first element. */
    method ReadArrayMisses() returns (a: nat, n: nat, b: nat, m: nat)
      requires Valid() && readable >= 2
      ensures n == m == 0 && Slice(0xFFFF_FFFF, 1) == Contents()[1..] != []
    {
      Turned();
      a, n, b, m := ReadArray(0xFFFF_FFFF, 1);
    }

    lemma SliceIs(size: nat, offset: nat)
      requires Valid()
      ensures offset >= readable ==> Slice(size, offset) == []
      ensures offset < readable ==>
        && var end := if offset + size > readable then readable else offset + size;
        && end <= readable == |Contents()| <= |Ring()|
        && Slice(size, offset) == Contents()[offset..end] == Ring()[offset..end]
    {
      hide RingOf;
      Turned();
    }

    lemma EmptyPieces(a: nat, b: nat)
      requires a <= buffer.Length && b <= buffer.Length
      ensures Pieces(a, 0, b, 0) == []
    {
    }

    lemma Nothing()
      requires Valid()
      ensures read <= buffer.Length && Pieces(read, 0, 0, 0) == []
    {
    }

    lemma Least(size: nat, readable: nat, rest: int)
      requires size <= readable && rest >= 0
      ensures Min(size, rest) == if Min(readable, rest) > size then size else Min(readable, rest)
    {
    }

    lemma Behind(all: seq<T>, size: nat, offset: nat, n: nat, pieces: seq<T>)
      requires offset <= size <= |all| && n <= size && all[..size] == pieces
      ensures all[offset..size] == pieces[offset..]
    {
    }

    lemma Shifted(n: nat, size: nat, offset: nat)
      requires offset <= size <= buffer.Length && n <= size && read + n <= buffer.Length
      ensures Pieces(read, n, 0, size - n)[offset..] ==
              if offset <= n then Pieces(read + offset, n - offset, 0, size - n)
              else Pieces(read + n, 0, offset - n, size - offset)
    {
    }

    lemma Front(size: nat, n: nat)
      requires Valid() && size <= readable && n == Min(size, buffer.Length - read)
      ensures |Contents()| == readable && read + n <= buffer.Length && size - n <= buffer.Length
      ensures Contents()[..size] == Pieces(read, n, 0, size - n)
    {
    }

    // ---- moving and replacing the array ----

    method Reposition()
      requires Valid()
      modifies this`read, this`write, buffer
      ensures Valid() && read == 0 && Contents() == old(Contents()) && readable == old(readable)
      ensures old(read) != 0 ==> write == readable
    {
      hide RingOf, Replaced;
      Turned();
      if read == 0 {
        return;
      }
      ghost var queue, n := Contents(), readable;
      if read + readable <= buffer.Length {
        Straight();
        Copied(buffer[..], 0, queue);
        CopyIn(0, buffer[read..read + readable]);
      } else {
        Join(buffer.Length - read, readable - (buffer.Length - read));
      }
      assert buffer[..][..n] == queue;
      read := 0;
      write := read + readable;
      FromZero();
    }

    /** Put the two pieces of the queue, len elements at the end of the array and another at its start, one after
        the other at its start, the shorter one by way of a copy. */
    method Join(len: nat, another: nat)
      requires Valid() && read + readable > buffer.Length && len == buffer.Length - read && another == readable - len
      modifies buffer
      ensures buffer[..][..readable] == old(Contents())
    {
      hide RingOf, Replaced;
      Around();
      ghost var s := buffer[..];
      if len < another {
        var t := buffer[read..];
        CopiedTwice(s, buffer[..another], len, t);
        CopyIn(len, buffer[..another]);
        CopyIn(0, t);
      } else {
        var t := buffer[..another];
        CopiedAfter(s, buffer[read..], t);
        CopyIn(0, buffer[read..]);
        CopyIn(len, t);
      }
    }

    lemma Copied(s: seq<T>, at: nat, d: seq<T>)
      requires at == 0 && |d| <= |s|
      ensures Replaced(s, at, d)[..|d|] == d
    {
    }

    lemma CopiedTwice(s: seq<T>, back: seq<T>, len: nat, front: seq<T>)
      requires |front| == len && len + |back| <= |s|
      ensures Replaced(Replaced(s, len, back), 0, front)[..len + |back|] == front + back
    {
    }

    lemma CopiedAfter(s: seq<T>, front: seq<T>, back: seq<T>)
      requires |front| + |back| <= |s|
      ensures Replaced(Replaced(s, 0, front), |front|, back)[..|front| + |back|] == front + back
    {
    }

    lemma Straight()
      requires Valid() && read + readable <= buffer.Length
      ensures Contents() == buffer[read..read + readable]
    {
    }

    lemma Around()
      requires Valid() && read + readable > buffer.Length
      ensures Contents() == buffer[read..] + buffer[..readable - (buffer.Length - read)]
    {
    }

    lemma FromZero()
      requires Valid() && read == 0
      ensures Contents() == buffer[..readable]
    {
    }

    /** Go on in another array of another size. */
    method Resize(buf: array<T>)
      requires Valid() && readable <= buf.Length < WORD && buf != buffer
      modifies this, buf
      ensures Valid() && buffer == buf && Contents() == old(Contents())
    {
      hide RingOf, Rotated;
      Turned();
      ghost var queue := Contents();
      var n := readable;
      var dest := Read(n);
      buffer, read, write, readable := buf, 0, 0, 0;
      CopyIn(0, dest);
      ghost var ring := Ring();
      WriteAdvance(n);
      FromZero();
    }

    /** empty() compares positions: it misses an empty queue whose write position stands at the end of the array. */
    method Empty() returns (r: bool)
      requires Valid()
      ensures r <==> Contents() == [] && (write < buffer.Length || buffer.Length == 0)
    {
      Turned();
      r := read == write && readable == 0;
    }

    /** That is so after moving a full queue to the front and reading it. */
    method EmptyMissed() returns (r: bool)
      requires Valid() && read > 0 && readable == buffer.Length
      modifies this, buffer
      ensures Valid() && Contents() == [] && !r
    {
      Reposition();
      ReadAdvance(readable);
      Turned();
      r := Empty();
    }
  }
}
