/** `AsyncLogging` of base/async_logging.cpp on real buffers, each owned by one pointer. */
module AsyncLog {
  import opened LogBuffer
  import M = AsyncLogModel

  /** The one pointer that holds a buffer. */
  datatype Slot = Current | Next | Spare1 | Spare2 | Filled(number: nat)

  datatype Place = Top | Waiting | Swapped | Writing(done: nat) | Stopped

  /** Fields of the object, then the local variables of its one writer thread, then the history. */
  class AsyncLogging {
    var running: bool
    var currentBuffer: FixedBuffer
    var nextBuffer: FixedBuffer?
    var buffers: seq<FixedBuffer>

    var place: Place
    var newBuffer1: FixedBuffer?
    var newBuffer2: FixedBuffer?
    var buffersToWrite: seq<FixedBuffer>
    var output: seq<M.Chunk>

    // The history, and the texts of the buffers in `buffers` and `buffersToWrite`.
    ghost var lines: seq<string>
    ghost var batches: seq<seq<string>>
    ghost var queued: seq<string>
    ghost var batch: seq<string>

    // Which pointer holds each buffer. Filled buffers are numbered in the order they were filled.
    ghost var slots: map<FixedBuffer, Slot>
    ghost var arrays: set<array<char>>
    ghost var taken: nat
    ghost var first: nat

    // ------------------------------------------------------------ ownership

    static ghost predicate Pool(pool: set<FixedBuffer>, arrays: set<array<char>>)
      reads pool, arrays
    {
      && (forall b :: b in pool ==> b.data in arrays && b.Valid() && b.data.Length == LARGE_BUFFER)
      && (forall a, b :: a in pool && b in pool && a != b ==> a.data != b.data)
    }

    static ghost predicate Holds(slots: map<FixedBuffer, Slot>, b: FixedBuffer?, s: Slot) {
      b != null ==> b in slots && slots[b] == s
    }

    static ghost predicate HoldsAll(slots: map<FixedBuffer, Slot>, bs: seq<FixedBuffer>, start: nat) {
      forall i :: 0 <= i < |bs| ==> bs[i] in slots && slots[bs[i]] == Filled(start + i)
    }

    static ghost predicate Contain(bs: seq<FixedBuffer>, texts: seq<string>)
      reads bs
    {
      |bs| == |texts| && forall i :: 0 <= i < |bs| ==> bs[i].text == texts[i]
    }

    static ghost predicate Empty(b: FixedBuffer?)
      reads b
    {
      b != null ==> b.cur == 0 && b.text == ""
    }

    ghost predicate Owners()
      reads `slots, `currentBuffer, `nextBuffer, `newBuffer1, `newBuffer2, `buffers, `buffersToWrite, `taken, `first
    {
      && Holds(slots, currentBuffer, Current) && Holds(slots, nextBuffer, Next)
      && Holds(slots, newBuffer1, Spare1) && Holds(slots, newBuffer2, Spare2)
      && HoldsAll(slots, buffers, taken) && HoldsAll(slots, buffersToWrite, first)
      && first + |buffersToWrite| <= taken
    }

    ghost predicate Valid()
      reads this, slots.Keys, arrays
    {
      && Pool(slots.Keys, arrays)
      && Owners()
      && (forall b :: b in buffers ==> b in slots.Keys) && (forall b :: b in buffersToWrite ==> b in slots.Keys)
      && Contain(buffers, queued) && Contain(buffersToWrite, batch)
      && Empty(nextBuffer) && Empty(newBuffer1) && Empty(newBuffer2)
      && (place.Top? || place.Waiting? || place.Stopped? ==> buffersToWrite == [])
      && (place.Writing? ==> place.done <= |buffersToWrite|)
    }

    /** No buffer has two owners. */
    ghost predicate SingleOwners()
      reads this
    {
      && currentBuffer != nextBuffer && currentBuffer != newBuffer1 && currentBuffer != newBuffer2
      && (nextBuffer != null ==> nextBuffer != newBuffer1 && nextBuffer != newBuffer2)
      && (newBuffer1 != null ==> newBuffer1 != newBuffer2)
      && (forall b :: b in buffers + buffersToWrite ==>
            b != currentBuffer && b != nextBuffer && b != newBuffer1 && b != newBuffer2)
      && (forall i, j :: 0 <= i < |buffers| && 0 <= j < |buffersToWrite| ==> buffers[i] != buffersToWrite[j])
      && (forall i, j :: 0 <= i < j < |buffers| ==> buffers[i] != buffers[j])
      && (forall i, j :: 0 <= i < j < |buffersToWrite| ==> buffersToWrite[i] != buffersToWrite[j])
    }

    lemma OwnersAreSingle()
      requires Valid()
      ensures SingleOwners()
    {
    }

    ghost function View(): M.State
      reads this, currentBuffer
    {
      M.State(running, currentBuffer.text, nextBuffer != null, queued,
              match place
              case Top => M.Top
              case Waiting => M.Waiting
              case Stopped => M.Stopped
              case Swapped => M.Swapped(batch)
              case Writing(done) => M.Writing(batch, done),
              newBuffer1 != null, newBuffer2 != null, output, lines, batches)
    }

    // ------------------------------------------- bookkeeping of the labels

    static lemma PushLabel(slots: map<FixedBuffer, Slot>, bs: seq<FixedBuffer>, start: nat, b: FixedBuffer)
      requires HoldsAll(slots, bs, start) && b in slots && !slots[b].Filled?
      ensures HoldsAll(slots[b := Filled(start + |bs|)], bs + [b], start)
    {
    }

    static lemma OtherLabel(slots: map<FixedBuffer, Slot>, bs: seq<FixedBuffer>, start: nat, b: FixedBuffer, s: Slot)
      requires HoldsAll(slots, bs, start)
      requires b in slots ==> !slots[b].Filled? || slots[b].number < start || slots[b].number >= start + |bs|
      ensures HoldsAll(slots[b := s], bs, start) && b !in bs
    {
    }

    static lemma UnheldLabel(slots: map<FixedBuffer, Slot>, bs: seq<FixedBuffer>, start: nat, b: FixedBuffer, s: Slot)
      requires HoldsAll(slots, bs, start) && b !in bs
      ensures HoldsAll(slots[b := s], bs, start)
    {
    }

    static lemma PrefixHeld(slots: map<FixedBuffer, Slot>, bs: seq<FixedBuffer>, texts: seq<string>, start: nat, n: nat)
      requires HoldsAll(slots, bs, start) && Contain(bs, texts) && n <= |bs|
      ensures |texts| == |bs| && HoldsAll(slots, bs[..n], start) && Contain(bs[..n], texts[..n])
      ensures forall b :: b in bs[..n] ==> b in bs
    {
    }

    static lemma PushText(bs: seq<FixedBuffer>, texts: seq<string>, b: FixedBuffer)
      requires Contain(bs, texts)
      ensures Contain(bs + [b], texts + [b.text])
    {
    }

    // ------------------------------------------------------------- producers

    /** The writer has made its two spare buffers when it reaches the loop for the first time. */
    constructor ()
      ensures Valid() && fresh(slots.Keys) && fresh(arrays) && View() == M.INIT && M.Balanced(View())
    {
      hide Pool, HoldsAll, Contain, Holds, Empty;
      var b1, b2, b3, b4 := FourBuffers();
      running := true;
      currentBuffer, nextBuffer, newBuffer1, newBuffer2 := b1, b2, b3, b4;
      buffers, buffersToWrite, place, output := [], [], Top, [];
      lines, batches, queued, batch, taken, first := [], [], [], [], 0, 0;
      slots := map[b1 := Current, b2 := Next, b3 := Spare1, b4 := Spare2];
      arrays := {b1.data, b2.data, b3.data, b4.data};
      new;
      FourHeld(b1, b2, b3, b4);
      NoneHeld(slots);
      M.StartIsBalanced();
    }

    static method FourBuffers() returns (b1: FixedBuffer, b2: FixedBuffer, b3: FixedBuffer, b4: FixedBuffer)
      ensures fresh({b1, b2, b3, b4}) && fresh({b1.data, b2.data, b3.data, b4.data})
      ensures b1 !in {b2, b3, b4} && b2 !in {b3, b4} && b3 != b4
      ensures b1.cur == b2.cur == b3.cur == b4.cur == 0 && b1.text == b2.text == b3.text == b4.text == ""
      ensures Pool({b1, b2, b3, b4}, {b1.data, b2.data, b3.data, b4.data})
    {
      hide Pool;
      b1 := new FixedBuffer(LARGE_BUFFER);
      b2 := new FixedBuffer(LARGE_BUFFER);
      b3 := new FixedBuffer(LARGE_BUFFER);
      b4 := new FixedBuffer(LARGE_BUFFER);
      PoolOfFour(b1, b2, b3, b4);
    }

    static lemma FourHeld(b1: FixedBuffer, b2: FixedBuffer, b3: FixedBuffer, b4: FixedBuffer)
      requires b1 !in {b2, b3, b4} && b2 !in {b3, b4} && b3 != b4
      requires b2.cur == b3.cur == b4.cur == 0 && b2.text == b3.text == b4.text == ""
      ensures var slots := map[b1 := Current, b2 := Next, b3 := Spare1, b4 := Spare2];
              && slots.Keys == {b1, b2, b3, b4}
              && Holds(slots, b1, Current) && Holds(slots, b2, Next)
              && Holds(slots, b3, Spare1) && Holds(slots, b4, Spare2)
      ensures Empty(b2) && Empty(b3) && Empty(b4)
    {
    }

    static lemma NoneHeld(slots: map<FixedBuffer, Slot>)
      ensures forall n :: HoldsAll(slots, [], n)
      ensures Contain([], [])
    {
    }

    static lemma PoolOfFour(b1: FixedBuffer, b2: FixedBuffer, b3: FixedBuffer, b4: FixedBuffer)
      requires forall b :: b in {b1, b2, b3, b4} ==> b.Valid() && b.data.Length == LARGE_BUFFER
      requires b1.data !in {b2.data, b3.data, b4.data} && b2.data !in {b3.data, b4.data} && b3.data != b4.data
      ensures Pool({b1, b2, b3, b4}, {b1.data, b2.data, b3.data, b4.data})
    {
    }

    /** The full buffer has joined `buffers`, and the next one, if there was one, has taken its place. */
    ghost predicate Replaced(full: FixedBuffer, spare: FixedBuffer?, before: seq<FixedBuffer>)
      reads this
    {
      buffers == before + [full] && nextBuffer == null && (spare != null ==> currentBuffer == spare)
    }

    /** A line that fits goes into the current buffer; only for one that does not a buffer is replaced. */
    method Append(logline: string)
      requires Valid()
      modifies this, slots.Keys, arrays
      ensures Valid() && fresh(slots.Keys - old(slots.Keys)) && fresh(arrays - old(arrays))
      ensures View() == M.Step(old(View()), M.Append(logline))
      ensures if old(LARGE_BUFFER - |currentBuffer.text|) > |logline|
              then currentBuffer == old(currentBuffer) && buffers == old(buffers) && nextBuffer == old(nextBuffer)
              else Replaced(old(currentBuffer), old(nextBuffer), old(buffers))
                   && (old(nextBuffer) == null ==> fresh(currentBuffer))
      ensures old(M.Balanced(View())) ==> M.Balanced(View())
    {
      hide Valid, M.Balanced, M.Step;
      M.StepIsBalanced(View(), M.Append(logline));
      Put(logline);
    }

    method Put(logline: string)
      requires Valid()
      modifies this, slots.Keys, arrays
      ensures Valid() && fresh(slots.Keys - old(slots.Keys)) && fresh(arrays - old(arrays))
      ensures View() == M.Step(old(View()), M.Append(logline))
      ensures if old(LARGE_BUFFER - |currentBuffer.text|) > |logline|
              then currentBuffer == old(currentBuffer) && buffers == old(buffers) && nextBuffer == old(nextBuffer)
              else Replaced(old(currentBuffer), old(nextBuffer), old(buffers))
                   && (old(nextBuffer) == null ==> fresh(currentBuffer))
    {
      hide Valid, View;
      CurrentIsValid();
      if currentBuffer.Avail() > |logline| {
        AppendToCurrent(logline);
      } else {
        ReplaceCurrent();
        AppendToCurrent(logline);
      }
      Note(logline);
    }

    ghost method Note(logline: string)
      requires Valid()
      modifies this`lines
      ensures Valid() && View() == old(View()).(lines := old(lines) + [logline])
    {
      hide Pool, Contain;
      lines := lines + [logline];
    }

    /** The full buffer joins `buffers`; the next buffer, or failing that a new one, takes its place. */
    method ReplaceCurrent()
      requires Valid()
      modifies this`buffers, this`currentBuffer, this`nextBuffer, this`slots, this`arrays, this`queued
      ensures Valid() && fresh(slots.Keys - old(slots.Keys)) && fresh(arrays - old(arrays))
      ensures currentBuffer in slots.Keys && currentBuffer.data in arrays
      ensures currentBuffer.cur == 0 && Replaced(old(currentBuffer), old(nextBuffer), old(buffers))
      ensures old(nextBuffer) == null ==> fresh(currentBuffer)
      ensures var s := old(View());
              View() == s.(buffers := s.buffers + [s.current], current := "", next := false)
    {
      hide Valid, Loose, Empty;
      ghost var before := View();
      var b := NextOrNew();
      PushCurrent(b);
      CurrentIsValid();
      assert View() == before.(buffers := before.buffers + [before.current], current := "", next := false);
    }

    method NextOrNew() returns (b: FixedBuffer)
      requires Valid()
      modifies this`nextBuffer, this`slots, this`arrays
      ensures Valid() && Loose(b) && nextBuffer == null
      ensures if old(nextBuffer) != null then b == old(nextBuffer) else fresh(b)
      ensures fresh(slots.Keys - old(slots.Keys)) && fresh(arrays - old(arrays))
    {
      hide Valid, Loose, Empty;
      if nextBuffer != null {
        b := TakeNext();
      } else {
        b := NewBuffer();
      }
    }

    lemma CurrentIsValid()
      requires Valid()
      ensures currentBuffer.Valid() && currentBuffer.data.Length == LARGE_BUFFER
      ensures |currentBuffer.text| == currentBuffer.cur && View().current == currentBuffer.text && View().lines == lines
      ensures currentBuffer in slots.Keys && currentBuffer.data in arrays
    {
    }

    lemma CurrentIsAlone()
      requires Valid()
      ensures currentBuffer !in buffers && currentBuffer !in buffersToWrite
      ensures currentBuffer != nextBuffer && currentBuffer != newBuffer1 && currentBuffer != newBuffer2
    {
    }

    method AppendToCurrent(logline: string)
      requires Valid()
      modifies currentBuffer, currentBuffer.data
      ensures Valid()
      ensures var s, free := old(View()), LARGE_BUFFER - old(currentBuffer.cur);
              View() == s.(current := s.current + if free > |logline| then logline else logline[..free])
    {
      hide Owners, Contain, Empty;
      CurrentIsValid();
      CurrentIsAlone();
      currentBuffer.Append(logline);
    }

    method TakeNext() returns (b: FixedBuffer)
      requires Valid() && nextBuffer != null
      modifies this`nextBuffer
      ensures Valid() && b == old(nextBuffer) && nextBuffer == null
      ensures Loose(b)
    {
      hide Pool, HoldsAll, Contain;
      b := nextBuffer;
      nextBuffer := null;
    }

    method NewBuffer() returns (b: FixedBuffer)
      requires Valid() && nextBuffer == null
      modifies this`slots, this`arrays
      ensures Valid() && Loose(b) && fresh(b) && fresh(b.data)
      ensures slots.Keys == old(slots.Keys) + {b} && arrays == old(arrays) + {b.data}
    {
      hide HoldsAll, Contain, Pool, Holds;
      b := new FixedBuffer(LARGE_BUFFER);
      AddToPool(b);
    }

    ghost method AddToPool(b: FixedBuffer)
      requires Valid() && nextBuffer == null
      requires b !in slots && b.Valid() && b.data.Length == LARGE_BUFFER && b.data !in arrays && Empty(b)
      modifies this`slots, this`arrays
      ensures Valid() && Loose(b)
      ensures slots.Keys == old(slots.Keys) + {b} && arrays == old(arrays) + {b.data}
    {
      hide HoldsAll, Contain, Pool, Holds, Empty;
      OthersHeld(slots, currentBuffer, Current, b);
      OthersHeld(slots, newBuffer1, Spare1, b);
      OthersHeld(slots, newBuffer2, Spare2, b);
      OthersHeld(slots, nextBuffer, Next, b);
      PoolGrows(slots.Keys, arrays, b);
      OtherLabel(slots, buffers, taken, b, Next);
      OtherLabel(slots, buffersToWrite, first, b, Next);
      slots, arrays := slots[b := Next], arrays + {b.data};
      assert slots.Keys == old(slots.Keys) + {b};
    }

    static lemma OthersHeld(slots: map<FixedBuffer, Slot>, p: FixedBuffer?, s: Slot, b: FixedBuffer)
      requires Holds(slots, p, s) && b !in slots
      ensures Holds(slots[b := Next], p, s)
    {
    }

    static lemma PoolGrows(pool: set<FixedBuffer>, arrays: set<array<char>>, b: FixedBuffer)
      requires Pool(pool, arrays) && b.Valid() && b.data.Length == LARGE_BUFFER && b.data !in arrays
      ensures Pool(pool + {b}, arrays + {b.data})
    {
    }

    /** An empty buffer on its way from one pointer to another. */
    ghost predicate Loose(b: FixedBuffer)
      reads this, b
    {
      && b in slots && Empty(b)
      && ((slots[b] == Next && nextBuffer == null) || (slots[b] == Spare1 && newBuffer1 == null)
          || (slots[b] == Spare2 && newBuffer2 == null))
    }

    /** The current buffer joins `buffers`; an empty one takes its place. */
    method PushCurrent(b: FixedBuffer)
      requires Valid() && Loose(b)
      modifies this`buffers, this`currentBuffer, this`slots, this`queued
      ensures Valid() && slots.Keys == old(slots.Keys) && currentBuffer == b
      ensures buffers == old(buffers) + [old(currentBuffer)]
      ensures currentBuffer.cur == 0 && currentBuffer.text == ""
      ensures queued == old(queued) + [old(currentBuffer.text)]
    {
      hide Pool, HoldsAll, Contain;
      PushText(buffers, queued, currentBuffer);
      PushLabel(slots, buffers, taken, currentBuffer);
      OtherLabel(slots, buffersToWrite, first, currentBuffer, Filled(taken + |buffers|));
      slots := slots[currentBuffer := Filled(taken + |buffers|)];
      buffers, queued := buffers + [currentBuffer], queued + [currentBuffer.text];
      OtherLabel(slots, buffers, taken, b, Current);
      OtherLabel(slots, buffersToWrite, first, b, Current);
      currentBuffer := b;
      slots := slots[b := Current];
      assert slots.Keys == old(slots.Keys);
    }

    method Stop()
      requires Valid()
      modifies this`running
      ensures Valid() && View() == M.Step(old(View()), M.Stop)
      ensures old(M.Balanced(View())) ==> M.Balanced(View())
    {
      hide Pool, Holds, HoldsAll, Contain, Empty, M.Balanced;
      M.StepIsBalanced(View(), M.Stop);
      running := false;
    }

    // ----------------------------------------------------------- the writer

    /** The writer's critical section behind the wait. */
    method Swap()
      requires Valid() && M.Balanced(View()) && (place.Top? || place.Waiting?)
      modifies this
      ensures Valid() && slots.Keys == old(slots.Keys) && arrays == old(arrays)
      ensures View() == M.Swap(old(View()))
    {
      hide Valid, M.Balanced;
      SparesAreReady();
      TakeAll();
      if nextBuffer == null {
        RefillNext();
      }
    }

    /** The current buffer joins the full ones, and all of them become the batch. */
    method TakeAll()
      requires Valid() && newBuffer1 != null && (place.Top? || place.Waiting?)
      modifies this`newBuffer1, this`currentBuffer, this`slots, this`buffers, this`buffersToWrite
      modifies this`batches, this`batch, this`queued, this`first, this`taken, this`place
      ensures Valid() && slots.Keys == old(slots.Keys) && newBuffer1 == null && currentBuffer.text == ""
      ensures place == Swapped && queued == [] && batch == old(queued) + [old(currentBuffer.text)]
      ensures batches == old(batches) + [batch]
    {
      hide Valid;
      NothingInHand();
      var b := TakeSpare();
      PushCurrent(b);
      TakeBatch();
    }

    lemma SparesAreReady()
      requires M.Balanced(View()) && (place.Top? || place.Waiting?)
      ensures newBuffer1 != null && newBuffer2 != null
    {
    }

    lemma SomethingTaken()
      requires Valid() && M.Balanced(View()) && place.Swapped?
      ensures buffersToWrite != []
    {
    }

    lemma NothingInHand()
      requires Valid() && (place.Top? || place.Waiting?)
      ensures buffersToWrite == [] && batch == []
    {
    }

    method TakeSpare() returns (b: FixedBuffer)
      requires Valid() && newBuffer1 != null
      modifies this`newBuffer1
      ensures Valid() && b == old(newBuffer1) && newBuffer1 == null && Loose(b)
    {
      hide Pool, HoldsAll, Contain;
      b := newBuffer1;
      newBuffer1 := null;
    }

    /** `buffersToWrite.swap(buffers_)`. */
    method TakeBatch()
      requires Valid() && buffersToWrite == [] && batch == []
      modifies this`buffers, this`buffersToWrite, this`batches, this`batch
      modifies this`queued, this`first, this`taken, this`place
      ensures Valid() && place == Swapped && batch == old(queued) && queued == [] && batches == old(batches) + [batch]
    {
      hide Pool, HoldsAll, Contain, Holds, Empty;
      NoneHeld(slots);
      SameCount();
      buffersToWrite, buffers := buffers, buffersToWrite;
      batches, batch, queued := batches + [queued], queued, batch;
      first, taken := taken, taken + |buffersToWrite|;
      place := Swapped;
    }

    lemma SameCount()
      requires Valid()
      ensures |queued| == |buffers| && |batch| == |buffersToWrite|
    {
    }

    method RefillNext()
      requires Valid() && nextBuffer == null && newBuffer2 != null
      modifies this`nextBuffer, this`newBuffer2, this`slots
      ensures Valid() && nextBuffer != null && newBuffer2 == null && slots.Keys == old(slots.Keys)
    {
      hide Pool, HoldsAll, Contain;
      OtherLabel(slots, buffers, taken, newBuffer2, Next);
      OtherLabel(slots, buffersToWrite, first, newBuffer2, Next);
      slots := slots[newBuffer2 := Next];
      nextBuffer, newBuffer2 := newBuffer2, null;
      assert slots.Keys == old(slots.Keys);
    }

    /** The loop head, and the critical section if there is no need to wait. */
    method Enter()
      requires Valid() && M.Balanced(View()) && place.Top?
      modifies this
      ensures Valid() && slots.Keys == old(slots.Keys) && arrays == old(arrays)
      ensures View() == M.Step(old(View()), M.Enter) && M.Balanced(View())
    {
      hide Pool, Holds, HoldsAll, M.Balanced;
      M.StepIsBalanced(View(), M.Enter);
      SparesAreReady();
      if !running {
        place := Stopped;
        return;
      }
      assert newBuffer1 != null && newBuffer1.cur == 0;
      assert newBuffer2 != null && newBuffer2.cur == 0;
      assert buffersToWrite == [];
      if buffers == [] {
        place := Waiting;
      } else {
        Swap();
      }
    }

    method Wake()
      requires Valid() && M.Balanced(View()) && place.Waiting?
      modifies this
      ensures Valid() && slots.Keys == old(slots.Keys) && arrays == old(arrays)
      ensures View() == M.Step(old(View()), M.Wake) && M.Balanced(View())
    {
      hide Valid, M.Balanced;
      M.StepIsBalanced(View(), M.Wake);
      Swap();
    }

    method Trim()
      requires Valid() && M.Balanced(View()) && place.Swapped?
      modifies this
      ensures Valid() && slots == old(slots) && arrays == old(arrays)
      ensures View() == M.Step(old(View()), M.Trim) && M.Balanced(View())
    {
      hide Valid, M.Balanced, M.Step;
      M.StepIsBalanced(View(), M.Trim);
      SomethingTaken();
      TrimBatch();
    }

    method TrimBatch()
      requires Valid() && place.Swapped? && buffersToWrite != []
      modifies this`output, this`buffersToWrite, this`batch, this`place
      ensures Valid() && View() == M.Step(old(View()), M.Trim)
    {
      hide Pool, Empty, Holds, HoldsAll, Contain;
      SameCount();
      assert buffersToWrite != [];
      if |buffersToWrite| > 25 {
        PrefixHeld(slots, buffersToWrite, batch, first, 2);
        output := output + [M.Notice(|buffersToWrite| - 2)];
        buffersToWrite, batch := buffersToWrite[..2], batch[..2];
      }
      place := Writing(0);
    }

    method Write()
      requires Valid() && place.Writing? && place.done < |buffersToWrite|
      modifies this
      ensures Valid() && slots == old(slots) && arrays == old(arrays)
      ensures View() == M.Step(old(View()), M.Write)
      ensures old(M.Balanced(View())) ==> M.Balanced(View())
    {
      hide Pool, Holds, HoldsAll, Empty, M.Balanced;
      M.StepIsBalanced(View(), M.Write);
      var b := buffersToWrite[place.done];
      InHandIsValid(b);
      output := output + [M.Text(b.data[..b.cur])];
      place := Writing(place.done + 1);
    }

    /** Two of the written buffers become the spare ones of the next round; the others are freed. */
    method Recycle()
      requires Valid() && M.Balanced(View()) && place.Writing? && place.done == |buffersToWrite|
      modifies this, buffersToWrite
      ensures Valid() && slots.Keys == old(slots.Keys) && arrays == old(arrays)
      ensures View() == M.Step(old(View()), M.Recycle) && M.Balanced(View())
    {
      hide Valid, M.Balanced;
      M.StepIsBalanced(View(), M.Recycle);
      EnoughToRecycle();
      InHand();
      EndWriting();
      RefillSpares();
      Clear();
    }

    method RefillSpares()
      requires Valid() && place.Swapped? && newBuffer1 == null
      requires |buffersToWrite| >= if newBuffer2 == null then 2 else 1
      modifies this`buffersToWrite, this`batch, this`newBuffer1, this`newBuffer2, this`slots, buffersToWrite
      ensures Valid() && slots.Keys == old(slots.Keys) && newBuffer1 != null && newBuffer2 != null
    {
      hide Valid;
      if |buffersToWrite| > 2 {
        Resize();
      }
      if newBuffer1 == null {
        assert buffersToWrite != [];
        RecycleFirst();
      }
      if newBuffer2 == null {
        assert buffersToWrite != [];
        RecycleSecond();
      }
    }

    lemma EnoughToRecycle()
      requires Valid() && M.Balanced(View()) && place.Writing?
      ensures newBuffer1 == null && |buffersToWrite| >= if newBuffer2 == null then 2 else 1
    {
    }

    method EndWriting()
      requires Valid()
      modifies this`place
      ensures Valid() && place == Swapped
    {
      hide Pool, Contain;
      place := Swapped;
    }

    lemma InHandIsValid(b: FixedBuffer)
      requires Valid() && b in buffersToWrite
      ensures b.Valid()
    {
    }

    lemma InHand()
      requires Valid()
      ensures |batch| == |buffersToWrite| && currentBuffer !in buffersToWrite
      ensures forall b :: b in buffersToWrite ==> b !in buffers
    {
    }

    method Resize()
      requires Valid() && place.Swapped? && |buffersToWrite| > 2
      modifies this`buffersToWrite, this`batch
      ensures Valid() && buffersToWrite == old(buffersToWrite[..2])
    {
      hide Pool;
      buffersToWrite, batch := buffersToWrite[..2], batch[..2];
    }

    method Clear()
      requires Valid()
      modifies this`buffersToWrite, this`batch, this`place
      ensures Valid() && buffersToWrite == [] && place == Top
    {
      hide Pool;
      buffersToWrite, batch, place := [], [], Top;
    }

    method RecycleFirst()
      requires Valid() && place.Swapped? && buffersToWrite != [] && newBuffer1 == null
      modifies this`buffersToWrite, this`batch, this`newBuffer1, this`slots, buffersToWrite
      ensures Valid() && newBuffer1 != null && slots.Keys == old(slots.Keys)
      ensures buffersToWrite == old(buffersToWrite[..|buffersToWrite| - 1])
    {
      hide Valid, Taken, Empty;
      var b := PopBack();
      KeepFirst(b);
    }

    method KeepFirst(b: FixedBuffer)
      requires Valid() && Taken(b) && Empty(b) && newBuffer1 == null
      modifies this`newBuffer1, this`slots
      ensures Valid() && newBuffer1 == b && slots.Keys == old(slots.Keys)
    {
      hide Pool, HoldsAll, Contain;
      UnheldLabel(slots, buffers, taken, b, Spare1);
      UnheldLabel(slots, buffersToWrite, first, b, Spare1);
      newBuffer1, slots := b, slots[b := Spare1];
      assert slots.Keys == old(slots.Keys);
    }

    method RecycleSecond()
      requires Valid() && place.Swapped? && buffersToWrite != [] && newBuffer2 == null
      modifies this`buffersToWrite, this`batch, this`newBuffer2, this`slots, buffersToWrite
      ensures Valid() && newBuffer2 != null && slots.Keys == old(slots.Keys)
      ensures buffersToWrite == old(buffersToWrite[..|buffersToWrite| - 1])
    {
      hide Valid, Taken, Empty;
      var b := PopBack();
      KeepSecond(b);
    }

    method KeepSecond(b: FixedBuffer)
      requires Valid() && Taken(b) && Empty(b) && newBuffer2 == null
      modifies this`newBuffer2, this`slots
      ensures Valid() && newBuffer2 == b && slots.Keys == old(slots.Keys)
    {
      hide Pool, HoldsAll, Contain;
      UnheldLabel(slots, buffers, taken, b, Spare2);
      UnheldLabel(slots, buffersToWrite, first, b, Spare2);
      newBuffer2, slots := b, slots[b := Spare2];
      assert slots.Keys == old(slots.Keys);
    }

    /** `back`, `pop_back` and `reset`. */
    method PopBack() returns (b: FixedBuffer)
      requires Valid() && place.Swapped? && buffersToWrite != []
      modifies this`buffersToWrite, this`batch, buffersToWrite[|buffersToWrite| - 1]
      ensures Valid() && b == old(buffersToWrite[|buffersToWrite| - 1]) && Empty(b) && Taken(b)
      ensures buffersToWrite == old(buffersToWrite[..|buffersToWrite| - 1])
    {
      hide Valid;
      b := TakeBack();
      ResetTaken(b);
    }

    /** Held by no pointer. */
    ghost predicate Taken(b: FixedBuffer)
      reads this
    {
      && b in slots.Keys && b !in buffers && b !in buffersToWrite
      && b != currentBuffer && b != nextBuffer && b != newBuffer1 && b != newBuffer2
    }

    method TakeBack() returns (b: FixedBuffer)
      requires Valid() && place.Swapped? && buffersToWrite != []
      modifies this`buffersToWrite, this`batch
      ensures Valid() && b == old(buffersToWrite[|buffersToWrite| - 1]) && Taken(b)
      ensures buffersToWrite == old(buffersToWrite[..|buffersToWrite| - 1])
    {
      LastIsAlone();
      hide Pool, Holds, HoldsAll, Contain, Empty;
      PrefixHeld(slots, buffersToWrite, batch, first, |buffersToWrite| - 1);
      b := buffersToWrite[|buffersToWrite| - 1];
      buffersToWrite, batch := buffersToWrite[..|buffersToWrite| - 1], batch[..|buffersToWrite| - 1];
    }

    method ResetTaken(b: FixedBuffer)
      requires Valid() && Taken(b)
      modifies b
      ensures Valid() && Empty(b)
    {
      hide Holds, HoldsAll;
      b.Reset();
    }

    lemma LastIsAlone()
      requires Valid() && buffersToWrite != []
      ensures var b, n := buffersToWrite[|buffersToWrite| - 1], |buffersToWrite| - 1;
              && b in slots.Keys && slots[b] == Filled(first + n) && b !in buffersToWrite[..n] && b !in buffers
              && b != currentBuffer && b != nextBuffer && b != newBuffer1 && b != newBuffer2
    {
    }
  }
}
