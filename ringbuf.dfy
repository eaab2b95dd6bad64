/*
 * The shared ring buffer of src/ringbuf/ringbuf.h, seen by one sequential
 * client: the occupancy and free-space arithmetic on the four cursors, the
 * two-phase reserve/commit protocol on both sides, the enqueue/dequeue
 * wrappers that copy a record in or out between the two phases, and repair.
 */
module RingBuf {

  /** Every cursor and data word of the file is a uint32_t. */
  const WORD_MOD: int := 0x1_0000_0000
  type U32 = x: int | 0 <= x < WORD_MOD

  /** Length word telling a reader that the record was placed at word 0
      because it did not fit between its head and the end of the array. */
  const WRAP_MARK: U32 := 0xFFFF_FFFF

  /** ringbuf_error. */
  datatype RbError = RbOk | NoMoreRoom | Failure | BadVersion

  /** ringbuf_tx: where the payload starts (right after the length word),
      where the next record starts, and the head cursor observed when the
      reservation was made. */
  datatype Tx = Tx(recordStart: U32, next: U32, seen: U32)

  /** ringbuf_file_num_entries, in uint32_t arithmetic: the number of words
      between the consumer head and the producer tail. */
  function NumEntries(numWords: U32, prodTail: U32, consHead: U32): (r: U32)
    ensures prodTail < numWords && consHead < numWords ==>
      && r < numWords
      && (consHead + r == prodTail || consHead + r == prodTail + numWords)
      && (r == 0 <==> prodTail == consHead)
  {
    if prodTail >= consHead then prodTail - consHead
    else (prodTail + numWords - consHead) % WORD_MOD
  }

  /** ringbuf_file_num_free, in uint32_t arithmetic: the number of words a
      producer may still reserve; one word is always kept free. */
  function NumFree(numWords: U32, consTail: U32, prodHead: U32): (r: U32)
    ensures consTail < numWords && prodHead < numWords ==>
      && r <= numWords - 1
      && (prodHead + r + 1 == consTail || prodHead + r + 1 == consTail + numWords)
      && (r == 0 <==> prodHead + 1 == consTail || prodHead + 1 == consTail + numWords)
  {
    if consTail > prodHead then consTail - prodHead - 1
    else (consTail + numWords - prodHead - 1) % WORD_MOD
  }

  /** Occupied and free words always add up to the capacity minus the one
      reserved word. */
  lemma EntriesPlusFree(numWords: U32, x: U32, y: U32)
    requires x < numWords && y < numWords
    ensures NumEntries(numWords, x, y) + NumFree(numWords, y, x) == numWords - 1
  {
  }


  /** Words that agree one by one with src from index p are the slice src. */
  lemma SliceIs<T>(m: seq<T>, p: int, src: seq<T>)
    requires 0 <= p && p + |src| <= |m|
    requires forall k :: 0 <= k < |src| ==> m[p + k] == src[k]
    ensures m[p .. p + |src|] == src
  {
  }

  /** The words m with src copied over them from index p on. */
  function Overlay<T>(m: seq<T>, p: int, src: seq<T>): (r: seq<T>)
    requires 0 <= p && p + |src| <= |m|
    ensures |r| == |m|
    ensures forall k :: 0 <= k < |src| ==> r[p + k] == src[k]
    ensures forall j :: 0 <= j < |m| && !(p <= j < p + |src|) ==> r[j] == m[j]
  {
    m[..p] + src + m[p + |src|..]
  }

  /** struct ringbuf_file: the header and the word array of the mapped file. */
  class RingBuffer {
    const numWords: U32
    const wrap: bool
    const data: array<U32>
    var prodHead: U32
    var prodTail: U32
    var consHead: U32
    var consTail: U32
    var numAllocs: U32

    // The words of data, as a value.
    ghost var mem: seq<U32>
    // Words reserved by readers (consumer tail to consumer head), committed
    // and unread (consumer head to producer tail), and reserved by writers
    // (producer tail to producer head).
    ghost var readLen: int
    ghost var dataLen: int
    ghost var writeLen: int
    // The committed, unread records, oldest first.
    ghost var records: seq<seq<U32>>

    /** The index e words after index x, going round the array. */
    function Add(x: int, e: int): int {
      if x + e < numWords then x + e else x + e - numWords
    }

    /** A record of n words whose first word is at index h fits before the
        end of the array. */
    predicate Fits(h: int, n: int) {
      h + 1 + n <= numWords
    }

    /** Words a record of n payload words takes from index h: the length word
        and the payload, plus the skipped end of the array if it wraps. */
    function FrameLen(h: int, n: int): int {
      if Fits(h, n) then 1 + n else (numWords - h) + 1 + n
    }

    /** Distance from a record's first word to its first payload word. */
    function PayloadOff(h: int, n: int): int {
      if Fits(h, n) then 1 else (numWords - h) + 1
    }

    /** Array index of the first payload word, and of the length word. */
    function PayloadIdx(h: int, n: int): int {
      if Fits(h, n) then h + 1 else 1
    }

    function LengthIdx(h: int, n: int): int {
      PayloadIdx(h, n) - 1
    }

    /** The reservation a record of n words gets when the head is at h. */
    function TxFor(h: U32, n: U32): Tx
      requires h < numWords && n + 1 < numWords
    {
      if Fits(h, n) then Tx(h + 1, if h + 1 + n == numWords then 0 else h + 1 + n, h)
      else Tx(1, 1 + n, h)
    }

    /** The payload length a reservation covers. */
    function TxLen(tx: Tx): int {
      if tx.next >= tx.recordStart then tx.next - tx.recordStart
      else numWords - tx.recordStart
    }

    /** The record rec is laid out in the words m from index h: its length
        word, the wrap mark if it wraps, and its payload. */
    predicate FramedIn(m: seq<U32>, h: int, rec: seq<U32>) {
      var n := |rec|;
      && |m| == numWords && 0 <= h < numWords
      && FrameLen(h, n) < numWords
      && m[LengthIdx(h, n)] == n
      && (!Fits(h, n) ==> m[h] == WRAP_MARK)
      && m[PayloadIdx(h, n) .. PayloadIdx(h, n) + n] == rec
    }

    /** The records recs are laid out in m back to back, taking the len
        words from index h. */
    predicate LaidIn(m: seq<U32>, h: int, len: int, recs: seq<seq<U32>>)
      decreases |recs|
    {
      if recs == [] then len == 0
      else
        var fl := FrameLen(h, |recs[0]|);
        && FramedIn(m, h, recs[0])
        && fl <= len
        && LaidIn(m, Add(h, fl), len - fl, recs[1..])
    }

    /** The invariant of the header and the words, on values: the cursors
        split the array into the readers' reservations, the committed
        records and the writers' reservations, in that order, leaving at
        least one word free. */
    predicate Inv(ct: int, ch: int, pt: int, ph: int, rl: int, dl: int, wl: int,
                  m: seq<U32>, recs: seq<seq<U32>>)
    {
      && 0 < numWords && |m| == numWords
      && 0 <= ct < numWords && 0 <= ch < numWords && 0 <= pt < numWords && 0 <= ph < numWords
      && 0 <= rl && 0 <= dl && 0 <= wl && rl + dl + wl < numWords
      && ch == Add(ct, rl) && pt == Add(ch, dl) && ph == Add(pt, wl)
      // Compared with true so that the layout stays one fact wherever Inv
      // is checked, rather than being unfolded record by record.
      && (LaidIn(m, ch, dl, recs) == true)
    }

    ghost predicate Valid()
      reads this, data
    {
      && data.Length == numWords && |mem| == numWords
      && (forall i :: 0 <= i < data.Length ==> data[i] == mem[i])
      && Inv(consTail, consHead, prodTail, prodHead, readLen, dataLen, writeLen, mem, records)
    }

    /** The empty buffer ringbuf_create leaves. */
    constructor (capacity: U32, wrapping: bool)
      requires 0 < capacity
      ensures Valid() && fresh(data)
      ensures numWords == capacity && wrap == wrapping
      ensures prodHead == prodTail == consHead == consTail == 0 && numAllocs == 0
      ensures records == []
    {
      numWords := capacity;
      wrap := wrapping;
      data := new U32[capacity];
      prodHead, prodTail, consHead, consTail, numAllocs := 0, 0, 0, 0, 0;
      readLen, dataLen, writeLen := 0, 0, 0;
      records := [];
      new;
      mem := data[..];
    }

    // --- index arithmetic and layout ---------------------------------------

    lemma AddAdd(c: int, a: int, b: int)
      requires 0 <= c < numWords && 0 <= a && 0 <= b && a + b < numWords
      ensures Add(Add(c, a), b) == Add(c, a + b)
    {
    }

    /** Where each word of a record at index h lies, as an offset from h. */
    lemma WordAt(h: int, n: int, off: int)
      requires 0 <= h < numWords && 0 <= n && FrameLen(h, n) < numWords
      requires PayloadOff(h, n) - 1 <= off < FrameLen(h, n)
      ensures Add(h, off) == LengthIdx(h, n) + (off - PayloadOff(h, n) + 1)
    {
    }

    /** A word written at least a frame's length after h leaves the record
        framed at h as it was. */
    lemma FramedAfterWrite(m: seq<U32>, h: int, rec: seq<U32>, e: int, v: U32)
      requires FramedIn(m, h, rec) && FrameLen(h, |rec|) <= e < numWords
      ensures FramedIn(m[Add(h, e) := v], h, rec)
    {
      var n := |rec|;
      var p := PayloadIdx(h, n);
      WordAt(h, n, PayloadOff(h, n) - 1);
      WordAt(h, n, FrameLen(h, n) - 1);
      var m' := m[Add(h, e) := v];
      assert m'[p .. p + n] == m[p .. p + n];
    }

    /** A word written after the laid-out records, short of a lap, leaves
        every record as it was. */
    lemma {:induction false} LaidAfterWrite(m: seq<U32>, h: int, len: int, recs: seq<seq<U32>>, e: int, v: U32)
      requires LaidIn(m, h, len, recs) && |m| == numWords && 0 <= h < numWords
      requires len <= e < numWords
      ensures LaidIn(m[Add(h, e) := v], h, len, recs)
      decreases |recs|
    {
      if recs != [] {
        var fl := FrameLen(h, |recs[0]|);
        FramedAfterWrite(m, h, recs[0], e, v);
        AddAdd(h, fl, e - fl);
        LaidAfterWrite(m, Add(h, fl), len - fl, recs[1..], e - fl, v);
      }
    }

    /** Going round the array from x, different distances short of a lap
        reach different indices. */
    lemma AddInjective(x: int, e1: int, e2: int)
      requires 0 <= x < numWords && 0 <= e1 < numWords && 0 <= e2 < numWords
      requires Add(x, e1) == Add(x, e2)
      ensures e1 == e2
    {
    }

    /** Words that agree on a record's frame keep the record framed. */
    lemma FramedAgree(m: seq<U32>, m': seq<U32>, h: int, rec: seq<U32>)
      requires FramedIn(m, h, rec) && |m'| == numWords
      requires forall e :: 0 <= e < FrameLen(h, |rec|) ==> m'[Add(h, e)] == m[Add(h, e)]
      ensures FramedIn(m', h, rec)
    {
      var n := |rec|;
      var p := PayloadIdx(h, n);
      WordAt(h, n, PayloadOff(h, n) - 1);
      assert m'[LengthIdx(h, n)] == m[LengthIdx(h, n)];
      assert m'[Add(h, 0)] == m[Add(h, 0)];
      forall j | p <= j < p + n
        ensures m'[j] == m[j]
      {
        WordAt(h, n, PayloadOff(h, n) + (j - p));
      }
      assert m'[p .. p + n] == m[p .. p + n];
    }

    /** Words that agree on the len words from h keep the records laid out
        there. */
    lemma {:induction false} LaidAgree(m: seq<U32>, m': seq<U32>, h: int, len: int, recs: seq<seq<U32>>)
      requires LaidIn(m, h, len, recs) && |m| == numWords && |m'| == numWords && 0 <= h < numWords && len < numWords
      requires forall e :: 0 <= e < len ==> m'[Add(h, e)] == m[Add(h, e)]
      ensures LaidIn(m', h, len, recs)
      decreases |recs|
    {
      if recs != [] {
        var fl := FrameLen(h, |recs[0]|);
        FramedAgree(m, m', h, recs[0]);
        var h' := Add(h, fl);
        forall e | 0 <= e < len - fl
          ensures m'[Add(h', e)] == m[Add(h', e)]
        {
          AddAdd(h, fl, e);
        }
        LaidAgree(m, m', h', len - fl, recs[1..]);
      }
    }

    /** A record framed right after the laid-out ones extends the layout. */
    lemma {:induction false} LaidAppend(m: seq<U32>, h: int, len: int, recs: seq<seq<U32>>, t: int, rec: seq<U32>)
      requires LaidIn(m, h, len, recs) && 0 <= h < numWords && 0 <= len
      requires t == Add(h, len) && FramedIn(m, t, rec) && len + FrameLen(t, |rec|) < numWords
      ensures LaidIn(m, h, len + FrameLen(t, |rec|), recs + [rec])
      decreases |recs|
    {
      if recs == [] {
        assert [] + [rec] == [rec];
        assert LaidIn(m, Add(h, FrameLen(h, |rec|)), 0, []);
      } else {
        var fl := FrameLen(h, |recs[0]|);
        AddAdd(h, fl, len - fl);
        LaidAppend(m, Add(h, fl), len - fl, recs[1..], t, rec);
        assert (recs + [rec])[0] == recs[0];
        assert (recs + [rec])[1..] == recs[1..] + [rec];
      }
    }

    /** The reservation of a record framed at h covers its payload and ends
        where the frame does. */
    predicate TxOfFrameFacts(h: int, n: int) {
      && 0 <= h < numWords && 0 <= n && n + 1 < numWords
      && TxFor(h, n).seen == h
      && TxFor(h, n).next == Add(h, FrameLen(h, n))
      && TxLen(TxFor(h, n)) == n
      && TxFor(h, n).recordStart == PayloadIdx(h, n)
    }

    lemma TxOfFrame(h: U32, n: U32)
      requires h < numWords && FrameLen(h, n) < numWords
      ensures TxOfFrameFacts(h, n)
    {
    }

    // --- what each step keeps of the invariant ---------------------------

    /** The buffer holds no record exactly when the consumer head has caught
        up with the producer tail (the comment on the cursors). */
    lemma EmptyIff()
      requires Valid()
      ensures records == [] <==> consHead == prodTail
    {
    }

    /** num_entries of the consumer head and producer tail counts the
        committed words, and num_free of the consumer tail and producer head
        what the reservations and the data leave of the array, minus the
        reserved word. */
    lemma CursorCounts()
      requires Valid()
      ensures NumEntries(numWords, prodTail, consHead) == dataLen
      ensures NumFree(numWords, consTail, prodHead) == numWords - 1 - (readLen + dataLen + writeLen)
    {
    }

    /** A word written d words after the producer tail, clear of the
        readers' words. */
    lemma WriteKeeps(ct: int, ch: int, pt: int, ph: int, rl: int, dl: int, wl: int,
                     m: seq<U32>, recs: seq<seq<U32>>, d: int, v: U32)
      requires Inv(ct, ch, pt, ph, rl, dl, wl, m, recs) && 0 <= d && rl + dl + d < numWords
      ensures 0 <= Add(pt, d) < numWords
      ensures Inv(ct, ch, pt, ph, rl, dl, wl, m[Add(pt, d) := v], recs)
    {
      AddAdd(ch, dl, d);
      LaidAfterWrite(m, ch, dl, recs, dl + d, v);
    }

    /** The payload of a reservation of n words at the producer tail, filled
        with src, leaves the records and the reservation's header alone. */
    lemma PayloadKeeps(ct: int, ch: int, pt: int, ph: int, rl: int, dl: int, wl: int,
                       m: seq<U32>, recs: seq<seq<U32>>, tx: Tx, src: seq<U32>, m': seq<U32>)
      requires Inv(ct, ch, pt, ph, rl, dl, wl, m, recs) && ReservedIn(m, pt, wl, tx, |src|, 0)
      ensures tx.recordStart + |src| <= numWords
      requires m' == Overlay(m, tx.recordStart, src)
      ensures Inv(ct, ch, pt, ph, rl, dl, wl, m', recs) && ReservedIn(m', pt, wl, tx, |src|, 0)
      ensures m'[tx.recordStart .. tx.recordStart + |src|] == src
    {
      var n := |src|;
      var p := tx.recordStart;
      TxOfFrame(tx.seen, n);
      forall e | 0 <= e < dl
        ensures m'[Add(ch, e)] == m[Add(ch, e)]
      {
        PayloadClear(ch, dl, pt, n, e);
      }
      LaidAgree(m, m', ch, dl, recs);
      SliceIs(m', p, src);
    }

    /** The payload of a frame at pt, dl words after ch, holds none of the dl
        words from ch. */
    lemma PayloadClear(ch: int, dl: int, pt: int, n: int, e: int)
      requires 0 <= ch < numWords && 0 <= dl && pt == Add(ch, dl) && 0 <= n
      requires dl + FrameLen(pt, n) < numWords && 0 <= e < dl
      ensures !(PayloadIdx(pt, n) <= Add(ch, e) < PayloadIdx(pt, n) + n)
    {
      var p := PayloadIdx(pt, n);
      if p <= Add(ch, e) < p + n {
        var k := Add(ch, e) - p;
        WordAt(pt, n, PayloadOff(pt, n) + k);
        AddAdd(ch, dl, PayloadOff(pt, n) + k);
        AddInjective(ch, e, dl + PayloadOff(pt, n) + k);
      }
    }

    /** A reservation of a frame of fl words at the producer head. */
    lemma ReserveKeeps(ct: int, ch: int, pt: int, ph: int, rl: int, dl: int, wl: int,
                       m: seq<U32>, recs: seq<seq<U32>>, fl: int)
      requires Inv(ct, ch, pt, ph, rl, dl, wl, m, recs) && 0 <= fl && rl + dl + wl + fl < numWords
      ensures Inv(ct, ch, pt, Add(ph, fl), rl, dl, wl + fl, m, recs)
    {
      AddAdd(pt, wl, fl);
    }

    /** The oldest writer's reservation, framing rec, becomes the newest
        record. */
    lemma CommitKeeps(ct: int, ch: int, pt: int, ph: int, rl: int, dl: int, wl: int,
                      m: seq<U32>, recs: seq<seq<U32>>, rec: seq<U32>, fl: int, pt': int)
      requires Inv(ct, ch, pt, ph, rl, dl, wl, m, recs)
      requires FramedIn(m, pt, rec) && fl == FrameLen(pt, |rec|) && fl <= wl
      requires pt' == Add(pt, fl)
      ensures Inv(ct, ch, pt', ph, rl, dl + fl, wl - fl, m, recs + [rec])
    {
      LaidAppend(m, ch, dl, recs, pt, rec);
      AddAdd(ch, dl, fl);
      AddAdd(pt, fl, wl - fl);
    }

    /** The oldest record, framed at the consumer head, moves to the
        readers' reservations. */
    lemma PopKeeps(ct: int, ch: int, pt: int, ph: int, rl: int, dl: int, wl: int,
                   m: seq<U32>, recs: seq<seq<U32>>)
      requires Inv(ct, ch, pt, ph, rl, dl, wl, m, recs) && recs != []
      ensures var n, fl := |recs[0]|, FrameLen(ch, |recs[0]|);
        && FramedIn(m, ch, recs[0])
        && TxOfFrameFacts(ch, n)
        && Inv(ct, Add(ch, fl), pt, ph, rl + fl, dl - fl, wl, m, recs[1..])
    {
      var n, fl := |recs[0]|, FrameLen(ch, |recs[0]|);
      TxOfFrame(ch, n);
      AddAdd(ct, rl, fl);
      AddAdd(ch, fl, dl - fl);
    }

    /** The oldest reader's reservation, a frame of fl words, is released. */
    lemma ReleaseKeeps(ct: int, ch: int, pt: int, ph: int, rl: int, dl: int, wl: int,
                       m: seq<U32>, recs: seq<seq<U32>>, fl: int)
      requires Inv(ct, ch, pt, ph, rl, dl, wl, m, recs) && 0 <= fl <= rl
      ensures Inv(Add(ct, fl), ch, pt, ph, rl - fl, dl, wl, m, recs)
    {
      AddAdd(ct, fl, rl - fl);
    }

    /** The newest reader's reservation, d words after the consumer tail and
        framing rec, goes back to the front of the records. */
    lemma AbortKeeps(ct: int, ch: int, pt: int, ph: int, rl: int, dl: int, wl: int,
                     m: seq<U32>, recs: seq<seq<U32>>, d: int, rec: seq<U32>)
      requires Inv(ct, ch, pt, ph, rl, dl, wl, m, recs) && 0 <= d
      requires FramedIn(m, Add(ct, d), rec) && d + FrameLen(Add(ct, d), |rec|) == rl
      ensures Inv(ct, Add(ct, d), pt, ph, d, dl + FrameLen(Add(ct, d), |rec|), wl, m, [rec] + recs)
    {
      var fl := FrameLen(Add(ct, d), |rec|);
      AddAdd(ct, d, fl);
      AddAdd(Add(ct, d), fl, dl);
      assert ([rec] + recs)[1..] == recs;
    }

    /** Dropping every reservation. */
    lemma RepairKeeps(ct: int, ch: int, pt: int, ph: int, rl: int, dl: int, wl: int,
                      m: seq<U32>, recs: seq<seq<U32>>)
      requires Inv(ct, ch, pt, ph, rl, dl, wl, m, recs)
      ensures Inv(ch, ch, pt, pt, 0, dl, 0, m, recs)
      ensures ct == ch <==> rl == 0
      ensures ph == pt <==> wl == 0
    {
    }

    // --- producer side ---------------------------------------------------

    /** One word written d words after the producer tail, as the reservation
        and the payload copy do; it must stay clear of the readers' words. */
    method Store(ghost d: int, idx: int, v: U32)
      requires Valid() && 0 <= d && readLen + dataLen + d < numWords
      requires idx == Add(prodTail, d)
      modifies data, this`mem
      ensures Valid()
      ensures mem == old(mem)[idx := v]
    {
      WriteKeeps(consTail, consHead, prodTail, prodHead, readLen, dataLen, writeLen, mem, records, d, v);
      data[idx] := v;
      mem := mem[idx := v];
    }

    /** Whether ringbuf_enqueue_alloc grants n payload words now. */
    predicate CanAlloc(n: U32)
      reads this
    {
      && FrameLen(prodHead, n) <= NumFree(numWords, consTail, prodHead)
      && (wrap || Fits(prodHead, n))
    }

    /** A reservation for n payload words, d words after the producer tail
        pt, with its length word (and wrap mark) written in m. */
    predicate ReservedIn(m: seq<U32>, pt: int, wl: int, tx: Tx, n: int, d: int) {
      && 0 <= d && 0 <= n && n + 1 < numWords
      && |m| == numWords && tx.seen < numWords
      && tx.seen == Add(pt, d)
      && d + FrameLen(tx.seen, n) <= wl
      && tx == TxFor(tx.seen, n)
      && m[LengthIdx(tx.seen, n)] == n
      && (!Fits(tx.seen, n) ==> m[tx.seen] == WRAP_MARK)
    }

    ghost predicate Reserved(tx: Tx, n: int, d: int)
      reads this
    {
      ReservedIn(mem, prodTail, writeLen, tx, n, d)
    }

    /** Write the length word of a record of n words whose frame starts at
        index h, d words after the producer tail, and the wrap mark in front
        of it when it goes back to word 0. */
    method WriteHeader(ghost d: int, h: U32, n: U32)
      requires Valid() && 0 <= d && h == Add(prodTail, d)
      requires readLen + dataLen + d + FrameLen(h, n) < numWords
      modifies data, this`mem
      ensures Valid()
      ensures mem[LengthIdx(h, n)] == n
      ensures !Fits(h, n) ==> mem[h] == WRAP_MARK
    {
      if Fits(h, n) {
        Store(d, h, n);
      } else {
        Store(d, h, WRAP_MARK);
        AddAdd(prodTail, d, numWords - h);
        Store(d + (numWords - h), 0, n);
      }
    }

    /** ringbuf_enqueue_alloc: reserve room for a record of n words after the
        producer head and write its length word. A non-wrapping buffer never
        moves a record back to word 0. */
    method EnqueueAlloc(n: U32) returns (err: RbError, tx: Tx)
      requires Valid()
      modifies this`prodHead, this`writeLen, this`numAllocs, data, this`mem
      ensures Valid()
      ensures err == RbOk <==> old(CanAlloc(n))
      ensures err != RbOk ==> err == NoMoreRoom && unchanged(this) && unchanged(data)
      ensures err == RbOk ==>
        && tx == TxFor(old(prodHead), n)
        && prodHead == tx.next
        && numAllocs == (old(numAllocs) + 1) % WORD_MOD
        && Reserved(tx, n, old(writeLen))
    {
      if !CanAlloc(n) {
        return NoMoreRoom, Tx(0, 0, prodHead);
      }
      RoomIff(n);
      WriteHeader(writeLen, prodHead, n);
      tx := Reserve(n);
      err := RbOk;
    }

    /** There is room for a record of n words exactly when its frame fits in
        what the reservations and the data leave free. */
    lemma RoomIff(n: U32)
      requires Valid()
      ensures CanAlloc(n) <==>
        readLen + dataLen + writeLen + FrameLen(prodHead, n) < numWords && (wrap || Fits(prodHead, n))
    {
      CursorCounts();
    }

    /** The second half of ringbuf_enqueue_alloc: with the header of a record
        of n words written at the producer head, move the head past it. */
    method Reserve(n: U32) returns (tx: Tx)
      requires Valid() && readLen + dataLen + writeLen + FrameLen(prodHead, n) < numWords
      requires mem[LengthIdx(prodHead, n)] == n
      requires !Fits(prodHead, n) ==> mem[prodHead] == WRAP_MARK
      modifies this`prodHead, this`writeLen, this`numAllocs
      ensures Valid()
      ensures tx == TxFor(old(prodHead), n) && prodHead == tx.next
      ensures numAllocs == (old(numAllocs) + 1) % WORD_MOD
      ensures Reserved(tx, n, old(writeLen))
    {
      ghost var fl := FrameLen(prodHead, n);
      tx := TxFor(prodHead, n);
      TxOfFrame(prodHead, n);
      ReserveKeeps(consTail, consHead, prodTail, prodHead, readLen, dataLen, writeLen, mem, records, fl);
      prodHead, writeLen, numAllocs := tx.next, writeLen + fl, (numAllocs + 1) % WORD_MOD;
    }

    /** ringbuf_enqueue_commit: publish the oldest outstanding reservation.
        The source waits until the producer tail reaches tx.seen, so commits
        happen in reservation order; here that is the precondition. */
    method EnqueueCommit(tx: Tx)
      requires Valid() && Reserved(tx, TxLen(tx), 0)
      modifies this`prodTail, this`dataLen, this`writeLen, this`records
      ensures Valid()
      ensures tx.recordStart + TxLen(tx) <= |mem|
      ensures records == old(records) + [mem[tx.recordStart .. tx.recordStart + TxLen(tx)]]
      ensures prodTail == tx.next
    {
      ghost var n := TxLen(tx);
      ghost var fl := FrameLen(prodTail, n);
      CommitStep(consTail, consHead, prodTail, prodHead, readLen, dataLen, writeLen, mem, records, tx, n, fl);
      ghost var rec := mem[tx.recordStart .. tx.recordStart + n];
      prodTail, dataLen, writeLen, records := tx.next, dataLen + fl, writeLen - fl, records + [rec];
    }

    /** A reservation at the producer tail frames whatever its payload words
        hold, so committing it keeps the invariant. */
    lemma CommitStep(ct: int, ch: int, pt: int, ph: int, rl: int, dl: int, wl: int,
                     m: seq<U32>, recs: seq<seq<U32>>, tx: Tx, n: int, fl: int)
      requires Inv(ct, ch, pt, ph, rl, dl, wl, m, recs)
      requires ReservedIn(m, pt, wl, tx, n, 0) && n == TxLen(tx) && fl == FrameLen(pt, n)
      ensures tx.recordStart + n <= numWords
      ensures Inv(ct, ch, tx.next, ph, rl, dl + fl, wl - fl, m, recs + [m[tx.recordStart .. tx.recordStart + n]])
    {
      TxOfFrame(tx.seen, n);
      CommitKeeps(ct, ch, pt, ph, rl, dl, wl, m, recs, m[tx.recordStart .. tx.recordStart + n], fl, tx.next);
    }

    /** The memcpy of ringbuf_enqueue: the words of src into the reserved
        payload. */
    method CopyIn(tx: Tx, src: seq<U32>)
      requires Valid() && Reserved(tx, |src|, 0)
      modifies data, this`mem
      ensures Valid() && Reserved(tx, |src|, 0)
      ensures tx.recordStart + |src| <= |mem| && mem[tx.recordStart .. tx.recordStart + |src|] == src
    {
      TxOfFrame(tx.seen, |src|);
      ghost var m' := Overlay(mem, tx.recordStart, src);
      PayloadKeeps(consTail, consHead, prodTail, prodHead, readLen, dataLen, writeLen, mem, records, tx, src, m');
      FillWords(tx.recordStart, src, mem, m');
      mem := m';
    }

    /** The word-by-word copy of src into the array from index p: the array
        then holds the words m0 it held with src laid over them. */
    method FillWords(p: U32, src: seq<U32>, ghost m0: seq<U32>, ghost m': seq<U32>)
      requires p + |src| <= data.Length == |m0|
      requires forall j :: 0 <= j < data.Length ==> data[j] == m0[j]
      requires m' == Overlay(m0, p, src)
      modifies data
      ensures forall j :: 0 <= j < data.Length ==> data[j] == m'[j]
    {
      var i := 0;
      while i < |src|
        invariant 0 <= i <= |src|
        invariant forall k :: 0 <= k < i ==> data[p + k] == src[k]
        invariant forall j :: 0 <= j < data.Length && !(p <= j < p + i) ==> data[j] == m0[j]
      {
        data[p + i] := src[i];
        i := i + 1;
      }
      forall j | 0 <= j < data.Length
        ensures data[j] == m'[j]
      {
        if p <= j < p + |src| {
          assert data[p + (j - p)] == src[j - p];
        }
      }
    }

    /** The second half of ringbuf_enqueue: copy src into the oldest
        reservation and publish it. */
    method Publish(tx: Tx, src: seq<U32>)
      requires Valid() && Reserved(tx, |src|, 0)
      modifies data, this`mem, this`prodTail, this`dataLen, this`writeLen, this`records
      ensures Valid()
      ensures records == old(records) + [src]
      ensures prodTail == tx.next
    {
      TxOfFrame(tx.seen, |src|);
      CopyIn(tx, src);
      EnqueueCommit(tx);
    }

    /** ringbuf_enqueue: reserve, copy the words in, commit. The source
        blocks in the commit while an earlier reservation is outstanding, so
        the model asks for none. */
    method Enqueue(src: seq<U32>) returns (err: RbError)
      requires Valid() && prodHead == prodTail && |src| < WORD_MOD
      modifies this`prodHead, this`prodTail, this`numAllocs, this`dataLen, this`writeLen, this`records, this`mem, data
      ensures Valid()
      ensures err == RbOk <==> old(CanAlloc(|src|))
      ensures err != RbOk ==> err == NoMoreRoom && unchanged(this) && unchanged(data)
      ensures err == RbOk ==>
        && records == old(records) + [src]
        && prodHead == prodTail
        && numAllocs == (old(numAllocs) + 1) % WORD_MOD
    {
      var tx;
      err, tx := EnqueueAlloc(|src|);
      if err != RbOk {
        return;
      }
      Publish(tx, src);
    }

    // --- consumer side ---------------------------------------------------

    /** A read reservation of a record of n words, d words after the
        consumer tail. */
    ghost predicate ReadReserved(tx: Tx, n: int, d: int)
      reads this
    {
      && 0 <= d && 0 <= n && n + 1 < numWords
      && 0 <= consTail < numWords && tx.seen == Add(consTail, d) && tx.seen < numWords
      && d + FrameLen(tx.seen, n) <= readLen
      && tx == TxFor(tx.seen, n)
    }

    /** ringbuf_dequeue_alloc: reserve the oldest committed record; returns
        its size in bytes, or -1 when the buffer is empty. */
    method DequeueAlloc() returns (sz: int, tx: Tx)
      requires Valid()
      modifies this`consHead, this`readLen, this`dataLen, this`records
      ensures Valid()
      ensures old(records) == [] ==> sz == -1 && unchanged(this)
      ensures old(records) != [] ==>
        var n := |old(records)[0]|;
        && sz == 4 * n
        && records == old(records)[1..]
        && tx == TxFor(old(consHead), n) && consHead == tx.next
        && ReadReserved(tx, n, old(readLen))
        && FramedIn(mem, old(consHead), old(records)[0])
    {
      EmptyIff();
      if consHead == prodTail {
        return -1, Tx(0, 0, consHead);
      }
      var n;
      n, tx := ReadHeader();
      Pop(tx);
      sz := 4 * (n as int);
    }

    /** How a reader finds the oldest record: a wrap mark at the consumer
        head sends it to word 0, where the length word is. */
    lemma HeaderAt()
      requires Valid() && records != []
      ensures var h, n := consHead, |records[0]|;
        && n + 1 < numWords
        && (mem[h] == WRAP_MARK <==> !Fits(h, n))
        && TxFor(h, n) == (if mem[h] == WRAP_MARK then Tx(1, 1 + mem[0], h)
                           else Tx(h + 1, if h + 1 + mem[h] == numWords then 0 else h + 1 + mem[h], h))
    {
      assert FramedIn(mem, consHead, records[0]);
    }

    /** The first half of ringbuf_dequeue_alloc: read the length word of the
        oldest record, skipping a wrap mark. */
    method ReadHeader() returns (n: U32, tx: Tx)
      requires Valid() && records != []
      ensures n == |records[0]| && n + 1 < numWords && tx == TxFor(consHead, n)
    {
      HeaderAt();
      var h := consHead;
      if data[h] == WRAP_MARK {
        n := data[0];
        tx := Tx(1, 1 + n, h);
      } else {
        n := data[h];
        tx := Tx(h + 1, if h + 1 + n == numWords then 0 else h + 1 + n, h);
      }
    }

    /** The second half of ringbuf_dequeue_alloc: move the consumer head past
        the oldest record. */
    method Pop(tx: Tx)
      requires Valid() && records != [] && |records[0]| + 1 < numWords
      requires tx == TxFor(consHead, |records[0]|)
      modifies this`consHead, this`readLen, this`dataLen, this`records
      ensures Valid()
      ensures records == old(records)[1..] && consHead == tx.next
      ensures ReadReserved(tx, |old(records)[0]|, old(readLen))
      ensures FramedIn(mem, old(consHead), old(records)[0])
    {
      ghost var fl := FrameLen(consHead, |records[0]|);
      PopKeeps(consTail, consHead, prodTail, prodHead, readLen, dataLen, writeLen, mem, records);
      consHead, readLen, dataLen, records := tx.next, readLen + fl, dataLen - fl, records[1..];
    }

    /** ringbuf_dequeue_commit: release the oldest outstanding read. The
        source waits until the consumer tail reaches tx.seen; here that is
        the precondition. */
    method DequeueCommit(tx: Tx)
      requires Valid() && ReadReserved(tx, TxLen(tx), 0)
      modifies this`consTail, this`readLen
      ensures Valid()
      ensures consTail == tx.next
    {
      ghost var fl := FrameLen(tx.seen, TxLen(tx));
      TxOfFrame(tx.seen, TxLen(tx));
      ReleaseKeeps(consTail, consHead, prodTail, prodHead, readLen, dataLen, writeLen, mem, records, fl);
      consTail, readLen := tx.next, readLen - fl;
    }

    /** The memcpy of ringbuf_dequeue: the n words of a reserved record out
        to dst. */
    method CopyOut(tx: Tx, n: nat, dst: array<U32>)
      requires Valid() && dst != data && tx.recordStart + n <= numWords && n <= dst.Length
      modifies dst
      ensures dst[..n] == mem[tx.recordStart .. tx.recordStart + n]
      ensures dst[n..] == old(dst[n..])
    {
      var i := 0;
      while i < n
        invariant 0 <= i <= n
        invariant forall k :: 0 <= k < i ==> dst[k] == mem[tx.recordStart + k]
        invariant dst[n..] == old(dst[n..])
      {
        dst[i] := data[tx.recordStart + i];
        i := i + 1;
      }
      assert dst[..n] == mem[tx.recordStart .. tx.recordStart + n];
    }

    /** The second half of ringbuf_dequeue: copy the reserved record rec
        out to dst and release it. */
    method Finish(tx: Tx, n: nat, dst: array<U32>, ghost rec: seq<U32>)
      requires Valid() && dst != data && consTail == tx.seen
      requires ReadReserved(tx, n, 0) && n == TxLen(tx) && n <= dst.Length
      requires FramedIn(mem, tx.seen, rec) && n == |rec|
      modifies this`consTail, this`readLen, dst
      ensures Valid() && consTail == tx.next
      ensures dst[..n] == rec && dst[n..] == old(dst[n..])
    {
      TxOfFrame(tx.seen, n);
      CopyOut(tx, n, dst);
      DequeueCommit(tx);
    }

    /** ringbuf_dequeue: reserve, copy out, commit, and return the size in
        bytes. A record larger than maxSize bytes yields -1 and, as in the
        source, its reservation is neither copied nor committed. */
    method Dequeue(dst: array<U32>, maxSize: nat) returns (r: int)
      requires Valid() && consHead == consTail && dst != data && maxSize <= 4 * dst.Length
      modifies this`consHead, this`consTail, this`readLen, this`dataLen, this`records, dst
      ensures Valid()
      ensures old(records) == [] ==> r == -1 && unchanged(this) && unchanged(dst)
      ensures old(records) != [] && 4 * |old(records)[0]| > maxSize ==>
        && r == -1 && unchanged(dst)
        && records == old(records)[1..]
        && consTail == old(consTail) && consHead != consTail
      ensures old(records) != [] && 4 * |old(records)[0]| <= maxSize ==>
        && r == 4 * |old(records)[0]|
        && dst[..|old(records)[0]|] == old(records)[0]
        && dst[|old(records)[0]|..] == old(dst[|records[0]|..])
        && records == old(records)[1..]
        && consHead == consTail
    {
      ghost var rec := if records == [] then [] else records[0];
      var sz, tx := DequeueAlloc();
      if sz < 0 {
        return sz;
      }
      var n := sz / 4;
      TxOfFrame(tx.seen, n);
      if sz > maxSize {
        return -1;
      }
      Finish(tx, n, dst, rec);
      r := sz;
    }

    /** Undo the latest read reservation, d words after the consumer tail;
        not in the source (see DequeueRollingBack). */
    method DequeueAbort(tx: Tx, ghost d: int, ghost rec: seq<U32>)
      requires Valid() && ReadReserved(tx, |rec|, d) && d + FrameLen(tx.seen, |rec|) == readLen
      requires FramedIn(mem, tx.seen, rec)
      modifies this`consHead, this`readLen, this`dataLen, this`records
      ensures Valid()
      ensures records == [rec] + old(records)
      ensures consHead == tx.seen
    {
      ghost var fl := FrameLen(tx.seen, |rec|);
      AbortKeeps(consTail, consHead, prodTail, prodHead, readLen, dataLen, writeLen, mem, records, d, rec);
      consHead, readLen, dataLen, records := tx.seen, d, dataLen + fl, [rec] + records;
    }

    /** ringbuf_dequeue with the reservation of a too-large record rolled
        back instead of left outstanding. */
    method DequeueRollingBack(dst: array<U32>, maxSize: nat) returns (r: int)
      requires Valid() && consHead == consTail && dst != data && maxSize <= 4 * dst.Length
      modifies this`consHead, this`consTail, this`readLen, this`dataLen, this`records, dst
      ensures Valid()
      ensures old(records) == [] ==> r == -1 && unchanged(this) && unchanged(dst)
      ensures old(records) != [] && 4 * |old(records)[0]| > maxSize ==>
        && r == -1 && unchanged(dst)
        && records == old(records)
        && consHead == consTail == old(consTail)
      ensures old(records) != [] && 4 * |old(records)[0]| <= maxSize ==>
        && r == 4 * |old(records)[0]|
        && dst[..|old(records)[0]|] == old(records)[0]
        && dst[|old(records)[0]|..] == old(dst[|records[0]|..])
        && records == old(records)[1..]
        && consHead == consTail
    {
      ghost var rec := if records == [] then [] else records[0];
      var sz, tx := DequeueAlloc();
      if sz < 0 {
        return sz;
      }
      r := Settle(tx, sz / 4, dst, maxSize, rec);
    }

    /** The rest of DequeueRollingBack once the oldest record rec is
        reserved: copy it out and release it, or put it back when it is
        larger than maxSize bytes. */
    method Settle(tx: Tx, n: nat, dst: array<U32>, maxSize: nat, ghost rec: seq<U32>) returns (r: int)
      requires Valid() && dst != data && maxSize <= 4 * dst.Length && consTail == tx.seen
      requires ReadReserved(tx, n, 0) && n == |rec| && FrameLen(tx.seen, n) == readLen
      requires FramedIn(mem, tx.seen, rec)
      modifies this`consHead, this`consTail, this`readLen, this`dataLen, this`records, dst
      ensures Valid()
      ensures 4 * n > maxSize ==>
        && r == -1 && unchanged(dst)
        && records == [rec] + old(records)
        && consHead == consTail == old(consTail)
      ensures 4 * n <= maxSize ==>
        && r == 4 * n
        && dst[..n] == rec && dst[n..] == old(dst[n..])
        && records == old(records)
        && consHead == consTail
    {
      TxOfFrame(tx.seen, n);
      if 4 * n > maxSize {
        DequeueAbort(tx, 0, rec);
        return -1;
      }
      Finish(tx, n, dst, rec);
      r := 4 * n;
    }

    // --- maintenance -----------------------------------------------------

    /** ringbuf_repair: whatever was reserved and not committed is lost; the
        result says whether anything had to be fixed. */
    method Repair() returns (fixed: bool)
      requires Valid()
      modifies this`consTail, this`prodHead, this`readLen, this`writeLen
      ensures Valid()
      ensures fixed <==> old(consTail) != old(consHead) || old(prodHead) != old(prodTail)
      ensures consTail == consHead && prodHead == prodTail
    {
      RepairKeeps(consTail, consHead, prodTail, prodHead, readLen, dataLen, writeLen, mem, records);
      fixed := false;
      if consTail != consHead {
        consTail := consHead;
        fixed := true;
      }
      if prodHead != prodTail {
        prodHead := prodTail;
        fixed := true;
      }
      readLen, writeLen := 0, 0;
    }
  }

  /** A second repair right after a first one finds nothing to fix. */
  method RepairTwice(rb: RingBuffer) returns (first: bool, second: bool)
    requires rb.Valid()
    modifies rb
    ensures rb.Valid()
    ensures first <==> old(rb.consTail) != old(rb.consHead) || old(rb.prodHead) != old(rb.prodTail)
    ensures !second
  {
    first := rb.Repair();
    second := rb.Repair();
  }

  /** What one producer enqueues, one consumer dequeues unchanged (with the
      corrected dequeue, which agrees with the source's on records that
      fit). */
  method RoundTrip(rb: RingBuffer, src: seq<U32>, dst: array<U32>) returns (err: RbError, r: int)
    requires rb.Valid() && rb.records == [] && rb.prodHead == rb.prodTail && rb.consHead == rb.consTail
    requires |src| < WORD_MOD && rb.data != dst && |src| <= dst.Length
    modifies rb, rb.data, dst
    ensures err == RbOk ==> r == 4 * |src| && dst[..|src|] == src && rb.records == []
    ensures err != RbOk ==> r == -1
  {
    err := rb.Enqueue(src);
    r := rb.DequeueRollingBack(dst, 4 * |src|);
  }
}
