/** Fixed-size sliding-window chunking (`chunk_text` in ingest.py).

    Windows of `size` characters start at offsets 0, step, 2*step, ... below
    the text length, where step = max(1, size - overlap); a window that is
    blank after `strip()` is dropped. */
module Chunker {
  import opened Text

  /** Default window length and overlap used by the indexer. */
  const ChunkSize: int := 800
  const ChunkOverlap: int := 120

  /** The advance between window starts, `max(1, size - overlap)`: never
      below 1, whatever the two parameters are, so chunking always ends. */
  function Step(size: int, overlap: int): (step: nat)
    ensures step >= 1 && step >= size - overlap
    ensures step == 1 || step == size - overlap
  {
    if size - overlap > 1 then size - overlap else 1
  }

  /** The window `text[i : i + size]`. For a non-negative size it is at most
      `size` long; for a start inside the text and a positive size it is the
      part of the text from `i` up to `i + size` or the end. */
  function Window(text: string, size: int, i: nat): (w: string)
    ensures size >= 0 ==> |w| <= size
    ensures i <= |text| && size >= 0 ==> w == text[i..Min(i + size, |text|)]
  {
    PySlice(text, i, i + size)
  }

  /** The window offsets `i, i + step, i + 2*step, ...` below `n`. */
  function WindowStarts(n: nat, step: nat, i: nat): (starts: seq<nat>)
    requires step >= 1
    decreases n - i
  {
    if i >= n then [] else [i] + WindowStarts(n, step, i + step)
  }

  /** The windows at the given offsets, in order, keeping the non-blank ones. */
  function KeptWindows(text: string, size: int, starts: seq<nat>): seq<string>
  {
    if starts == [] then []
    else
      var w := Window(text, size, starts[0]);
      (if !AllWhitespace(w) then [w] else []) + KeptWindows(text, size, starts[1..])
  }

  /** What `chunk_text(text, size, overlap)` returns. */
  function Chunks(text: string, size: int, overlap: int): seq<string>
  {
    KeptWindows(text, size, WindowStarts(|text|, Step(size, overlap), 0))
  }

  /** `chunk_text`: the while loop of the source, advancing `i` by the step
      and appending each non-blank window. It terminates for every size and
      overlap, including overlap >= size. */
  method ChunkText(text: string, size: int, overlap: int) returns (chunks: seq<string>)
    ensures chunks == Chunks(text, size, overlap)
  {
    chunks := [];
    var i: nat := 0;
    var n := |text|;
    var step := Step(size, overlap);
    ghost var all := Chunks(text, size, overlap);
    while i < n
      invariant all == chunks + KeptWindows(text, size, WindowStarts(n, step, i))
    {
      var chunk := PySlice(text, i, i + size);
      ghost var before := chunks;
      // `if chunk.strip():` holds exactly when the chunk is not all
      // whitespace (Text.StripEmptyIff).
      if !AllWhitespace(chunk) {
        chunks := chunks + [chunk];
      }
      LoopStep(text, size, n, step, i, before, chunks);
      i := i + step;
    }
  }

  /** One turn of the loop: the window at `i`, appended when it is not
      blank, and then the windows from `i + step`. */
  lemma LoopStep(text: string, size: int, n: nat, step: nat, i: nat, before: seq<string>, after: seq<string>)
    requires step >= 1 && i < n
    requires after == if !AllWhitespace(PySlice(text, i, i + size)) then before + [PySlice(text, i, i + size)] else before
    ensures before + KeptWindows(text, size, WindowStarts(n, step, i)) ==
            after + KeptWindows(text, size, WindowStarts(n, step, i + step))
  {
    var w := Window(text, size, i);
    var later := KeptWindows(text, size, WindowStarts(n, step, i + step));
    var x := if !AllWhitespace(w) then [w] else [];
    assert KeptWindows(text, size, WindowStarts(n, step, i)) == x + later by {
      KeptWindowsStep(text, size, n, step, i);
    }
    assert after == before + x;
    assert before + (x + later) == (before + x) + later;
  }

  /** The windows at `i` and after: the one at `i`, kept when not blank,
      then those from `i + step`. */
  lemma KeptWindowsStep(text: string, size: int, n: nat, step: nat, i: nat)
    requires step >= 1 && i < n
    ensures KeptWindows(text, size, WindowStarts(n, step, i)) ==
              (if !AllWhitespace(Window(text, size, i)) then [Window(text, size, i)] else []) +
              KeptWindows(text, size, WindowStarts(n, step, i + step))
  {
    var starts := WindowStarts(n, step, i);
    assert starts[0] == i && starts[1..] == WindowStarts(n, step, i + step);
  }

  // ---------------------------------------------------------------- properties

  predicate Increasing(xs: seq<nat>)
  {
    forall k, l :: 0 <= k < l < |xs| ==> xs[k] < xs[l]
  }

  /** `KeptWindows` selects, in order, exactly the offsets whose window is not
      blank; `picked` lists those offsets. */
  lemma {:induction false} KeptWindowsSelect(text: string, size: int, starts: seq<nat>) returns (picked: seq<nat>)
    ensures |picked| == |KeptWindows(text, size, starts)|
    ensures forall k :: 0 <= k < |picked| ==>
              picked[k] in starts && KeptWindows(text, size, starts)[k] == Window(text, size, picked[k])
    ensures forall x :: x in starts ==> (x in picked <==> !AllWhitespace(Window(text, size, x)))
    ensures Increasing(starts) ==> Increasing(picked)
  {
    if starts == [] {
      picked := [];
    } else {
      var rest := KeptWindowsSelect(text, size, starts[1..]);
      var w := Window(text, size, starts[0]);
      var tail := KeptWindows(text, size, starts[1..]);
      var kept := !AllWhitespace(w);
      assert KeptWindows(text, size, starts) == (if kept then [w] else []) + tail;
      picked := (if kept then [starts[0]] else []) + rest;
      SelectIndices(text, size, starts, rest, kept, KeptWindows(text, size, starts), tail);
      SelectMembers(text, size, starts, rest, kept);
      SelectIncreasing(starts, rest, kept);
    }
  }

  /** The inductive step of `KeptWindowsSelect` for the chunks themselves:
      chunk `k` of `full` is the window at `picked[k]`. */
  lemma SelectIndices(text: string, size: int, starts: seq<nat>, rest: seq<nat>, kept: bool,
                      full: seq<string>, tail: seq<string>)
    requires starts != []
    requires |rest| == |tail|
    requires forall k :: 0 <= k < |rest| ==> rest[k] in starts[1..] && tail[k] == Window(text, size, rest[k])
    requires full == (if kept then [Window(text, size, starts[0])] else []) + tail
    ensures var picked := (if kept then [starts[0]] else []) + rest;
      |picked| == |full| &&
      forall k :: 0 <= k < |picked| ==> picked[k] in starts && full[k] == Window(text, size, picked[k])
  {
    var picked := (if kept then [starts[0]] else []) + rest;
    var d := if kept then 1 else 0;
    forall k | 0 <= k < |picked|
      ensures picked[k] in starts && full[k] == Window(text, size, picked[k])
    {
      if k >= d {
        assert picked[k] == rest[k - d] && full[k] == tail[k - d];
        InTail(starts, rest[k - d]);
      }
    }
  }

  /** What is in the tail of a sequence is in the sequence. */
  lemma InTail(xs: seq<nat>, x: nat)
    requires xs != [] && x in xs[1..]
    ensures x in xs
  {
    assert xs == [xs[0]] + xs[1..];
  }

  lemma SelectMembers(text: string, size: int, starts: seq<nat>, rest: seq<nat>, kept: bool)
    requires starts != []
    requires kept == !AllWhitespace(Window(text, size, starts[0]))
    requires forall k :: 0 <= k < |rest| ==> rest[k] in starts[1..]
    requires forall x :: x in starts[1..] ==> (x in rest <==> !AllWhitespace(Window(text, size, x)))
    ensures var picked := (if kept then [starts[0]] else []) + rest;
      forall x :: x in starts ==> (x in picked <==> !AllWhitespace(Window(text, size, x)))
  {
    var picked := (if kept then [starts[0]] else []) + rest;
    forall x | x in starts ensures x in picked <==> !AllWhitespace(Window(text, size, x)) {
      if x != starts[0] {
        assert x in starts[1..];
      }
    }
  }

  lemma SelectIncreasing(starts: seq<nat>, rest: seq<nat>, kept: bool)
    requires starts != []
    requires forall k :: 0 <= k < |rest| ==> rest[k] in starts[1..]
    requires Increasing(starts[1..]) ==> Increasing(rest)
    ensures Increasing(starts) ==> Increasing((if kept then [starts[0]] else []) + rest)
  {
    var picked := (if kept then [starts[0]] else []) + rest;
    if Increasing(starts) {
      assert Increasing(starts[1..]);
      if kept {
        forall k, l | 0 <= k < l < |picked| ensures picked[k] < picked[l] {
          if k == 0 {
            assert picked[l] == rest[l - 1];
            var m :| 0 <= m < |starts[1..]| && starts[1..][m] == picked[l];
            assert starts[m + 1] == picked[l];
          } else {
            assert picked[k] == rest[k - 1] && picked[l] == rest[l - 1];
          }
        }
      } else {
        assert picked == rest;
      }
    }
  }

  /** The offsets start at `i` (when `i < n`), are `step` apart, and the last
      is the last one below `n`: `last < n <= last + step`. */
  lemma {:induction false} WindowStartsSpec(n: nat, step: nat, i: nat)
    requires step >= 1
    ensures var starts := WindowStarts(n, step, i);
      (starts == [] <==> i >= n) &&
      (starts != [] ==> starts[0] == i && starts[|starts| - 1] < n <= starts[|starts| - 1] + step) &&
      (forall k :: 0 <= k < |starts| - 1 ==> starts[k + 1] == starts[k] + step)
    decreases n - i
  {
    if i < n {
      WindowStartsSpec(n, step, i + step);
      var rest := WindowStarts(n, step, i + step);
      var starts := [i] + rest;
      assert forall k :: 1 <= k < |starts| ==> starts[k] == rest[k - 1];
    }
  }

  /** Offsets `step` apart are increasing. */
  lemma {:induction false} SpacedIncreasing(starts: seq<nat>, step: nat)
    requires step >= 1
    requires forall k :: 0 <= k < |starts| - 1 ==> starts[k + 1] == starts[k] + step
    ensures Increasing(starts)
    ensures forall k :: 0 <= k < |starts| ==> starts[0] + k <= starts[k]
  {
    if |starts| > 1 {
      SpacedIncreasing(starts[1..], step);
      forall k, l | 0 <= k < l < |starts| ensures starts[k] < starts[l] {
        if k > 0 {
          assert starts[1..][k - 1] < starts[1..][l - 1];
        }
      }
      forall k | 1 <= k < |starts| ensures starts[0] + k <= starts[k] {
        assert starts[1..][0] + (k - 1) <= starts[1..][k - 1];
      }
    }
  }

  /** Every index `j` from the first offset up to `n` falls in the gap
      `starts[k] <= j < starts[k] + step` after some offset. */
  lemma {:induction false} WindowStartsCell(n: nat, step: nat, i: nat, j: nat) returns (k: nat)
    requires step >= 1 && i <= j < n
    ensures k < |WindowStarts(n, step, i)|
    ensures WindowStarts(n, step, i)[k] <= j < WindowStarts(n, step, i)[k] + step
    decreases n - i
  {
    var starts := WindowStarts(n, step, i);
    assert starts[0] == i;
    if j < i + step {
      k := 0;
    } else {
      var k' := WindowStartsCell(n, step, i + step, j);
      assert starts[k' + 1] == WindowStarts(n, step, i + step)[k'];
      k := k' + 1;
    }
  }

  /** The chunks are the windows `text[i : i + size]` at the offsets
      `WindowStarts(|text|, step, 0)` (0, step, 2*step, ... below the text
      length; see `WindowStartsSpec`), in increasing order of offset, keeping
      exactly the ones that are not blank. `offsets` lists their start offsets. */
  lemma ChunkOffsets(text: string, size: int, overlap: int) returns (offsets: seq<nat>)
    ensures |offsets| == |Chunks(text, size, overlap)|
    ensures forall k :: 0 <= k < |offsets| ==>
              offsets[k] in WindowStarts(|text|, Step(size, overlap), 0) &&
              Chunks(text, size, overlap)[k] == Window(text, size, offsets[k])
    ensures Increasing(offsets)
    ensures forall i :: i in WindowStarts(|text|, Step(size, overlap), 0) ==>
              (i in offsets <==> !AllWhitespace(Window(text, size, i)))
  {
    var step := Step(size, overlap);
    var starts := WindowStarts(|text|, step, 0);
    WindowStartsSpec(|text|, step, 0);
    SpacedIncreasing(starts, step);
    offsets := KeptWindowsSelect(text, size, starts);
  }

  /** Every returned chunk has a non-whitespace character and, for a non-negative size, at most
      `size` characters long. */
  lemma ChunksBoundedAndNonBlank(text: string, size: int, overlap: int)
    ensures forall c :: c in Chunks(text, size, overlap) ==> !AllWhitespace(c)
    ensures size >= 0 ==> forall c :: c in Chunks(text, size, overlap) ==> |c| <= size
  {
    var offsets := ChunkOffsets(text, size, overlap);
    var chunks := Chunks(text, size, overlap);
    forall c | c in chunks ensures !AllWhitespace(c) && (size >= 0 ==> |c| <= size) {
      var k :| 0 <= k < |chunks| && chunks[k] == c;
      assert offsets[k] in offsets;
    }
  }

  /** Empty text has no chunks. */
  lemma EmptyTextNoChunks(size: int, overlap: int)
    ensures Chunks([], size, overlap) == []
  {
  }

  /** With a positive size and a non-negative overlap the step is at most
      `size`, so every non-whitespace character of the text lies inside some
      chunk: chunk `k` starts at offset `o` of the text and covers index `j`. */
  lemma ChunksCover(text: string, size: int, overlap: int, j: nat) returns (k: nat, o: nat)
    requires size >= 1 && overlap >= 0
    requires j < |text| && !IsWhitespace(text[j])
    ensures k < |Chunks(text, size, overlap)|
    ensures o <= j < o + |Chunks(text, size, overlap)[k]| <= |text|
    ensures Chunks(text, size, overlap)[k] == text[o..o + |Chunks(text, size, overlap)[k]|]
  {
    var step := Step(size, overlap);
    var starts := WindowStarts(|text|, step, 0);
    var offsets := ChunkOffsets(text, size, overlap);
    var cell := WindowStartsCell(|text|, step, 0, j);
    o := starts[cell];
    assert o in starts;
    WindowHolds(text, size, o, j);
    assert o in offsets;
    var m :| 0 <= m < |offsets| && offsets[m] == o;
    k := m;
  }

  /** The window at `o` contains index `j` when `o <= j < o + size`. */
  lemma WindowHolds(text: string, size: int, o: nat, j: nat)
    requires o <= j < |text| && j < o + size
    ensures var w := Window(text, size, o);
      o + |w| <= |text| && j < o + |w| && w == text[o..o + |w|] && w[j - o] == text[j]
  {
  }

  /** A non-blank text no longer than the step (and a positive size with a
      non-negative overlap) is one chunk: the whole text. */
  lemma ShortTextOneChunk(text: string, size: int, overlap: int)
    requires size >= 1 && overlap >= 0
    requires |text| <= Step(size, overlap)
    requires !AllWhitespace(text)
    ensures Chunks(text, size, overlap) == [text]
  {
    var step := Step(size, overlap);
    assert |text| >= 1;
    assert WindowStarts(|text|, step, step) == [];
    KeptWindowsStep(text, size, |text|, step, 0);
    assert Window(text, size, 0) == text;
  }

  /** A text of exactly `size` characters with `0 < overlap <= size / 2` has
      two windows: the whole text and its last `overlap` characters; each is
      kept when it is not blank. So a non-blank text of `size` characters
      gives two chunks unless its tail is blank. */
  lemma ExactSizeChunks(text: string, size: int, overlap: int)
    requires 0 < overlap && 2 * overlap <= size
    requires |text| == size
    ensures Chunks(text, size, overlap) ==
              (if !AllWhitespace(text) then [text] else []) +
              (if !AllWhitespace(text[size - overlap..]) then [text[size - overlap..]] else [])
  {
    var step := size - overlap;
    assert Step(size, overlap) == step;
    var n := |text|;
    assert WindowStarts(n, step, step + step) == [];
    assert WindowStarts(n, step, step) == [step];
    assert WindowStarts(n, step, 0) == [0, step];
    var starts := [0, step];
    assert starts[1..] == [step] && [step][1..] == [];
    assert Window(text, size, 0) == text;
    assert Window(text, size, step) == text[size - overlap..];
    KeptWindowsStep(text, size, n, step, 0);
    KeptWindowsStep(text, size, n, step, step);
  }

  /** A text of `2 * size - overlap` non-whitespace characters with
      `0 < overlap <= size / 2` gives three chunks, at offsets 0, step and
      2 * step. */
  lemma TwiceSizeLessOverlapChunks(text: string, size: int, overlap: int)
    requires 0 < overlap && 2 * overlap <= size
    requires |text| == 2 * size - overlap
    requires forall i :: 0 <= i < |text| ==> !IsWhitespace(text[i])
    ensures |Chunks(text, size, overlap)| == 3
  {
    var step := size - overlap;
    assert Step(size, overlap) == step;
    var n := |text|;
    assert WindowStarts(n, step, step + step + step) == [];
    KeptWindowsStep(text, size, n, step, 0);
    KeptWindowsStep(text, size, n, step, step);
    KeptWindowsStep(text, size, n, step, step + step);
    assert Window(text, size, 0)[0] == text[0];
    assert Window(text, size, step)[0] == text[step];
    assert Window(text, size, step + step)[0] == text[step + step];
  }

  /** With `size / 2 < overlap < size` the step is below half the size, so a
      text of `size` non-whitespace characters gives at least three chunks. */
  lemma ExactSizeLargeOverlapChunks(text: string, size: int, overlap: int)
    requires size < 2 * overlap && overlap < size
    requires |text| == size
    requires forall i :: 0 <= i < |text| ==> !IsWhitespace(text[i])
    ensures |Chunks(text, size, overlap)| >= 3
  {
    var step := size - overlap;
    assert Step(size, overlap) == step;
    var n := |text|;
    KeptWindowsStep(text, size, n, step, 0);
    KeptWindowsStep(text, size, n, step, step);
    KeptWindowsStep(text, size, n, step, step + step);
    assert Window(text, size, 0)[0] == text[0];
    assert Window(text, size, step)[0] == text[step];
    assert Window(text, size, step + step)[0] == text[step + step];
  }
}
