/** Print of kernel/hw/gfx/output.cc as a whole: from a format and its arguments to the text on the screen. */
module Printing {
  import opened Utf8
  import opened Format
  import opened Console
  import opened HeapManager
  import opened Options
  import H = HeapModel

  const STACK_SIZE: nat := 512
  const HEAP_SIZE: nat := 2048

  function StackMessage(): seq<Byte> { Ascii("Print: Stack buffer too small!\n") }

  function HeapMessage(): seq<Byte> { Ascii("Print: Heap buffer too small!\n") }

  /** The text that is shown: the whole text if it fits the stack buffer, or the heap buffer when there is a heap, else a message. */
  function Shown(text: seq<Byte>, heap: bool): (s: seq<Byte>)
    ensures |text| < 512 || (heap && |text| < 2048) ==> s == text
    ensures |text| >= 512 && !heap ==> s == Ascii("Print: Stack buffer too small!\n")
    ensures |text| >= 2048 && heap ==> s == Ascii("Print: Heap buffer too small!\n")
    ensures |s| < 2048
  {
    if |text| < STACK_SIZE then text
    else if !heap then StackMessage()
    else if |text| < HEAP_SIZE then text
    else HeapMessage()
  }

  /** What is decoded depends only on the bytes up to the terminator. */
  lemma {:induction false} DecodesUpToTerminator(s: seq<Byte>, u: seq<Byte>, i: nat)
    requires Terminated(s, i) && Terminated(u, i) && Terminator(s, i) < |u| && s[..Terminator(s, i) + 1] == u[..Terminator(s, i) + 1]
    ensures DecodeAll(s, i) == DecodeAll(u, i)
    decreases |s| - i
  {
    var t := Terminator(s, i);
    assert forall k | 0 <= k <= t :: s[..t + 1][k] == s[k] && u[..t + 1][k] == u[k];
    if s[i] != 0 {
      StaysInside(s, i);
      ContinuesAlike(s, u, i + 1, Lead(s[i]).1, Lead(s[i]).0, t);
      var j := DecodeAt(s, i).1;
      TerminatorFrom(s, i, j);
      DecodesUpToTerminator(s, u, j);
    }
  }

  lemma {:induction false} ContinuesAlike(s: seq<Byte>, u: seq<Byte>, j: nat, n: nat, c: nat, t: nat)
    requires j <= t < |s| && t < |u| && s[t] == 0 && forall k | 0 <= k <= t :: s[k] == u[k]
    ensures Continue(s, j, n, c) == Continue(u, j, n, c)
    decreases n
  {
    if n > 0 && IsContinuation(s[j]) {
      ContinuesAlike(s, u, j + 1, n - 1, c * 0x40 + s[j] % 0x40, t);
    }
  }

  lemma {:induction false} TerminatorFrom(s: seq<Byte>, i: nat, j: nat)
    requires Terminated(s, i) && i <= j <= Terminator(s, i)
    ensures Terminated(s, j) && Terminator(s, j) == Terminator(s, i)
    decreases j - i
  {
    if i < j {
      TerminatorFrom(s, i + 1, j);
    }
  }

  /** A buffer that holds a text and a NUL, and ends with a NUL. */
  predicate Contains(memory: seq<Byte>, text: seq<Byte>) {
    |text| < |memory| && memory[..|text|] == text && memory[|text|] == 0 && memory[|memory| - 1] == 0
  }

  /** Such a buffer shows the text, whatever comes behind it. */
  lemma BufferShows(memory: seq<Byte>, text: seq<Byte>)
    requires Contains(memory, text)
    ensures Terminated(memory, 0) && Terminated(text + [0], 0) && DecodeAll(memory, 0) == DecodeAll(text + [0], 0)
  {
    var u := text + [0];
    assert memory[..|text| + 1] == u;
    TerminatorFirst(memory, 0, |text|);
    var t := Terminator(memory, 0);
    assert memory[..t + 1] == u[..t + 1];
    DecodesUpToTerminator(memory, u, 0);
  }

  lemma {:induction false} TerminatorFirst(s: seq<Byte>, i: nat, t: nat)
    requires Terminated(s, i) && i <= t < |s| && s[t] == 0
    ensures Terminator(s, i) <= t
    decreases t - i
  {
    if s[i] != 0 {
      TerminatorFirst(s, i + 1, t);
    }
  }

  /** vsnprintf into a fresh zeroed buffer. */
  method FormatInto(size: nat, fmt: seq<Byte>, args: seq<Arg>) returns (s: array<Byte>, fits: bool)
    requires 1 <= size < UMAX && Terminated(fmt, 0) && WellFormed(fmt, args)
    ensures fresh(s) && s.Length == size && s[size - 1] == 0 && (fits <==> |Expansion(fmt, args)| < size)
    ensures fits ==> Contains(s[..], Expansion(fmt, args))
  {
    hide Expansion, WellFormed;
    s := new Byte[size](_ => 0);
    assert s[..][size - 1] == 0;
    var len := Vsnprintf(s, size, fmt, args);
    fits := len != UMAX;
  }

  /** strlcpy of a message over the stack buffer. */
  method Replace(s: array<Byte>, message: seq<Byte>)
    requires |message| + 1 < s.Length && s[s.Length - 1] == 0 && forall k | 0 <= k < |message| :: message[k] != 0
    modifies s
    ensures Contains(s[..], message)
  {
    var _ := Strlcpy(s, 0, message + [0], s.Length);
  }

  /** The text does not fit the stack buffer, and there is a heap to get a longer one from. */
  predicate UsesHeap(text: seq<Byte>, ready: bool) {
    |text| >= STACK_SIZE && ready
  }

  /** The buffer that Print hands to the console, and the allocation behind it if it is the longer one.
      ready tells whether the allocator is initialised; ok is false where it panics. */
  method Prepare(heap: Allocator, ready: bool, fmt: seq<Byte>, args: seq<Arg>)
    returns (ok: bool, s: array<Byte>, held: Option<nat>)
    requires Terminated(fmt, 0) && WellFormed(fmt, args) && (ready ==> heap.Valid())
    modifies heap, heap.blocks.data, heap.mem
    ensures fresh(s) && (ok ==> Contains(s[..], Shown(Expansion(fmt, args), ready)))
    ensures !UsesHeap(Expansion(fmt, args), ready) ==> ok && held == None && heap.State() == old(heap.State()) && (ready ==> heap.Valid())
    ensures UsesHeap(Expansion(fmt, args), ready) ==> H.Valid(old(heap.State())) && heap.Valid()
    ensures UsesHeap(Expansion(fmt, args), ready) ==>
              match H.AllocateSpec(old(heap.State()), HEAP_SIZE, true)
              case None => !ok
              case Some(r) => ok && held == Some(r.1) && heap.State() == r.0
  {
    hide Expansion, WellFormed, Contains, Allocator.Valid, Allocator.State, H.Valid, H.AllocateSpec;
    var fits;
    ok, held := true, None;
    s, fits := FormatInto(STACK_SIZE, fmt, args);
    if !fits {
      if !ready {
        Replace(s, StackMessage());
      } else {
        HeapIsValid(heap);
        held := heap.Allocate(HEAP_SIZE, true);
        if held.None? {
          ok := false;
          return;
        }
        var long, fitsLong := FormatInto(HEAP_SIZE, fmt, args);
        if fitsLong {
          s := long;
        } else {
          Replace(s, HeapMessage());
        }
      }
    }
  }

  lemma HeapIsValid(heap: Allocator)
    requires heap.Valid()
    ensures H.Valid(heap.State()) && |heap.State().mem| == H.BLOCKS * H.WORDS && |heap.State().bits| == H.BLOCKS
  {
  }

  /** The longer buffer is given back. */
  method GiveBack(heap: Allocator, address: nat, ghost h: H.Heap)
    requires heap.Valid() && H.Valid(h) && H.AllocateSpec(h, HEAP_SIZE, true).Some?
    requires H.AllocateSpec(h, HEAP_SIZE, true).value == (heap.State(), address)
    modifies heap, heap.blocks.data
    ensures heap.Valid() && heap.State() == h.(mem := heap.State().mem)
  {
    H.FreeUndoesAllocate(h, HEAP_SIZE, true);
    hide Allocator.Valid, H.Valid, H.AllocateSpec, H.FreeSpec, H.Freeable;
    heap.Free(address);
  }

  /** Print, from the format to the screen; false where the allocator panics.  The heap is left as it was found. */
  method Print(con: Buffers, heap: Allocator, ready: bool, fmt: seq<Byte>, args: seq<Arg>) returns (ok: bool)
    requires con.Valid() && Terminated(fmt, 0) && WellFormed(fmt, args) && (ready ==> heap.Valid())
    modifies con, con.back, con.fb, heap, heap.blocks.data, heap.mem
    ensures UsesHeap(Expansion(fmt, args), ready) ==> H.Valid(old(heap.State()))
    ensures ok <==> (UsesHeap(Expansion(fmt, args), ready) ==> H.AllocateSpec(old(heap.State()), HEAP_SIZE, true).Some?)
    ensures ok ==> con.Valid() && con.fb[..] == con.View() && con.color == old(con.color)
    ensures ok ==> var text := Shown(Expansion(fmt, args), ready) + [0];
                   con.doc == Write(con.display, old(con.doc), DecodeAll(text, 0), con.color)
    ensures ok ==> (ready ==> heap.Valid()) && heap.State() == old(heap.State()).(mem := heap.State().mem)
  {
    hide Buffers.Valid, Allocator.Valid, Allocator.State, H.Valid, H.AllocateSpec, Expansion, WellFormed, DecodeAll,
         Contains, Shown, UsesHeap;
    ghost var h := heap.State();
    var s, held;
    ok, s, held := Prepare(heap, ready, fmt, args);
    if !ok {
      return;
    }
    BufferShows(s[..], Shown(Expansion(fmt, args), ready));
    con.PutString(s);
    if held.Some? {
      GiveBack(heap, held.value, h);
    }
  }

  /** A format whose text is an encoded string without NUL that fits a buffer adds exactly its code points to the document. */
  lemma EncodedTextIsShown(d: Display, doc: Document, color: nat, fmt: seq<Byte>, args: seq<Arg>, cs: seq<nat>, ready: bool)
    requires Usable(d) && doc.lines != []
    requires (forall c | c in cs :: Scalar(c) && c != 0) && Terminated(fmt, 0) && WellFormed(fmt, args)
    requires Expansion(fmt, args) == EncodeAll(cs) && |EncodeAll(cs)| < (if ready then HEAP_SIZE else STACK_SIZE)
    ensures var text := Shown(Expansion(fmt, args), ready) + [0];
            Terminated(text, 0) && Write(d, doc, DecodeAll(text, 0), color) == Write(d, doc, cs, color)
  {
    var text := EncodeAll(cs) + [0];
    assert text[0..] == text;
    DecodeAllEncoded(text, 0, cs);
  }
}
