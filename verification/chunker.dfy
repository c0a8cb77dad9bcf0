/** `chunk_text` of app.py: whitespace normalisation followed by fixed-size windows whose
    starts move forward by `size - overlap` characters. */
module Chunker {
  import opened Text

  /** The defaults of `chunk_text`, used by both ingestion paths. */
  const DefaultSize: int := 800
  const DefaultOverlap: int := 150

  function Min(a: int, b: int): int { if a <= b then a else b }
  function Max(a: int, b: int): int { if a >= b then a else b }

  /** End (exclusive) of the window that starts at cursor `i` in a text of length `n`. */
  function WindowEnd(n: nat, i: nat, size: int): int
  {
    Min(n, i + size)
  }

  /** The cursor after a window that ended at `j`. */
  function NextCursor(j: int, overlap: int): nat
  {
    Max(0, j - overlap)
  }

  /** Without `overlap < size` the cursor does not move forward after a window that stops
      short of the end of the text, so the loop of `chunk_text` never ends. */
  lemma CursorStallsWithoutAdvance(n: nat, i: nat, size: int, overlap: int)
    requires i < n && size <= overlap && WindowEnd(n, i, size) < n
    ensures NextCursor(WindowEnd(n, i, size), overlap) <= i
  {
  }

  /** The windows the loop of `chunk_text` emits from cursor `i` on, over the normalised
      text `t`. */
  function Windows(t: string, i: nat, size: int, overlap: int): (cs: seq<string>)
    requires 0 < size && overlap < size
    ensures |cs| > 0 <==> i < |t|
    ensures forall k | 0 <= k < |cs| :: 0 < |cs[k]| <= size
    ensures forall k | 0 <= k < |cs| - 1 :: |cs[k]| == size
    ensures forall k | 0 <= k < |cs| :: Contains(t, cs[k])
    decreases |t| - i
  {
    if i >= |t| then []
    else
      var j := WindowEnd(|t|, i, size);
      assert OccursAt(t, t[i..j], i);
      if j == |t| then [t[i..j]]
      else [t[i..j]] + Windows(t, NextCursor(j, overlap), size, overlap)
  }

  /** `chunk_text(text, size, overlap)`: the windows of the whitespace-normalised text. */
  function ChunkText(text: string, size: int, overlap: int): (cs: seq<string>)
    requires 0 < size && overlap < size
    ensures cs == [] <==> IsBlank(text)
    ensures forall k | 0 <= k < |cs| :: 0 < |cs[k]| <= size
    ensures forall k | 0 <= k < |cs| - 1 :: |cs[k]| == size
    ensures forall k | 0 <= k < |cs| :: Contains(Normalize(text), cs[k])
  {
    var t := Normalize(text);
    NormalizeEmptyIffBlank(text);
    if |t| == 0 then [] else Windows(t, 0, size, overlap)
  }

  /** The loop of `chunk_text` as written, with its cursor `i` and window end `j`. */
  method ChunkTextLoop(text: string, size: int, overlap: int) returns (chunks: seq<string>)
    requires 0 < size && overlap < size
    ensures chunks == ChunkText(text, size, overlap)
  {
    var t := Normalize(text);
    if |t| == 0 {
      return [];
    }
    chunks := [];
    var i: nat := 0;
    var n := |t|;
    while i < n
      invariant chunks + Windows(t, i, size, overlap) == Windows(t, 0, size, overlap)
      decreases n - i
    {
      var j := WindowEnd(n, i, size);
      chunks := chunks + [t[i..j]];
      if j == n {
        break;
      }
      i := NextCursor(j, overlap);
    }
  }

  // ---------------------------------------------------------------------------
  // Tiling: where each window sits in the normalised text

  /** The values the cursor `i` of `chunk_text` takes, one per emitted window. */
  function Cursors(t: string, i: nat, size: int, overlap: int): seq<nat>
    requires 0 < size && overlap < size
    decreases |t| - i
  {
    if i >= |t| then []
    else
      var j := WindowEnd(|t|, i, size);
      if j == |t| then [i] else [i] + Cursors(t, NextCursor(j, overlap), size, overlap)
  }

  /** Window `k` is the slice of the text from the `k`-th cursor to that cursor's window end. */
  lemma {:induction false} WindowsAtCursors(t: string, i: nat, size: int, overlap: int)
    requires 0 < size && overlap < size
    ensures |Cursors(t, i, size, overlap)| == |Windows(t, i, size, overlap)|
    ensures forall k | 0 <= k < |Windows(t, i, size, overlap)| ::
      && Cursors(t, i, size, overlap)[k] < |t|
      && Windows(t, i, size, overlap)[k]
         == t[Cursors(t, i, size, overlap)[k] .. WindowEnd(|t|, Cursors(t, i, size, overlap)[k], size)]
    decreases |t| - i
  {
    if i < |t| {
      var j := WindowEnd(|t|, i, size);
      if j < |t| {
        WindowsAtCursors(t, NextCursor(j, overlap), size, overlap);
      }
    }
  }

  /** With `0 <= overlap < size` the cursor starts at `i`, moves forward by exactly
      `size - overlap` after each window that stops short of the end, and the last window ends
      at the end of the text. */
  lemma {:induction false} CursorsAdvance(t: string, i: nat, size: int, overlap: int)
    requires 0 <= overlap < size
    ensures |Cursors(t, i, size, overlap)| > 0 ==>
      && Cursors(t, i, size, overlap)[0] == i
      && WindowEnd(|t|, Cursors(t, i, size, overlap)[|Cursors(t, i, size, overlap)| - 1], size) == |t|
    ensures forall k, k' | 0 <= k && k' == k + 1 && k' < |Cursors(t, i, size, overlap)| ::
      && Cursors(t, i, size, overlap)[k'] == Cursors(t, i, size, overlap)[k] + (size - overlap)
      && WindowEnd(|t|, Cursors(t, i, size, overlap)[k], size) < |t|
    decreases |t| - i
  {
    var ps := Cursors(t, i, size, overlap);
    if i < |t| {
      var j := WindowEnd(|t|, i, size);
      if j < |t| {
        var i' := NextCursor(j, overlap);
        var rest := Cursors(t, i', size, overlap);
        CursorsAdvance(t, i', size, overlap);
        assert ps == [i] + rest;
        forall k, k' | 0 <= k && k' == k + 1 && k' < |ps|
          ensures ps[k'] == ps[k] + (size - overlap) && WindowEnd(|t|, ps[k], size) < |t|
        {
          if k > 0 {
            assert ps[k] == rest[k - 1] && ps[k'] == rest[k' - 1];
          }
        }
      }
    }
  }

  /** `next` begins with the last `overlap` characters of `prev`. */
  predicate ContinuesFrom(prev: string, next: string, overlap: nat)
  {
    overlap <= |prev| && overlap < |next| && next[..overlap] == prev[|prev| - overlap..]
  }

  /** Each window after the first begins with the last `overlap` characters of the one before. */
  lemma WindowsOverlap(t: string, i: nat, size: int, overlap: nat)
    requires overlap < size
    ensures forall k | 0 < k < |Windows(t, i, size, overlap)| ::
      ContinuesFrom(Windows(t, i, size, overlap)[k - 1], Windows(t, i, size, overlap)[k], overlap)
  {
    var cs := Windows(t, i, size, overlap);
    var ps := Cursors(t, i, size, overlap);
    WindowsAtCursors(t, i, size, overlap);
    CursorsAdvance(t, i, size, overlap);
    forall k | 0 < k < |cs|
      ensures ContinuesFrom(cs[k - 1], cs[k], overlap)
    {
      var k' := k - 1;
      var p := ps[k'];
      assert ps[k] == p + size - overlap && WindowEnd(|t|, p, size) < |t|;
      assert cs[k'] == t[p .. WindowEnd(|t|, p, size)];
      assert cs[k] == t[p + size - overlap .. WindowEnd(|t|, p + size - overlap, size)];
      OverlapStep(t, p, size, overlap);
    }
  }

  /** Two consecutive windows at cursors `p` and `p + size - overlap`, the first stopping short of
      the end of `t`, share `overlap` characters. */
  lemma OverlapStep(t: string, p: nat, size: int, overlap: nat)
    requires overlap < size && WindowEnd(|t|, p, size) < |t|
    ensures ContinuesFrom(t[p .. WindowEnd(|t|, p, size)],
      t[p + size - overlap .. WindowEnd(|t|, p + size - overlap, size)], overlap)
  {
    var q := p + size - overlap;
    var prev := t[p .. p + size];
    var next := t[q .. WindowEnd(|t|, q, size)];
    assert prev[size - overlap..] == t[q .. p + size];
    assert next[..overlap] == t[q .. q + overlap];
  }

  /** A window starting at `start` begins `overlap` characters before the previous window,
      which started at `prevStart`, ended. */
  predicate StartsBeforeEnd(prevStart: nat, prev: string, start: nat, overlap: nat)
  {
    start + overlap == prevStart + |prev|
  }

  /** The tiling facts for the windows from cursor 0 of a text `t`. */
  predicate Tiles(t: string, cs: seq<string>, ps: seq<nat>, overlap: nat)
  {
    && |ps| == |cs|
    && (|cs| > 0 ==> ps[0] == 0 && ps[|cs| - 1] + |cs[|cs| - 1]| == |t|)
    && (forall k | 0 <= k < |cs| :: ps[k] + |cs[k]| <= |t| && cs[k] == t[ps[k] .. ps[k] + |cs[k]|])
    && (forall k | 0 < k < |cs| :: StartsBeforeEnd(ps[k - 1], cs[k - 1], ps[k], overlap))
    && (forall k | 0 < k < |cs| :: ContinuesFrom(cs[k - 1], cs[k], overlap))
  }

  /** Each window is the slice of `t` at its cursor, and the last one reaches the end of `t`. */
  lemma WindowsAreSlices(t: string, size: int, overlap: nat)
    requires overlap < size
    ensures |Cursors(t, 0, size, overlap)| == |Windows(t, 0, size, overlap)|
    ensures var cs, ps := Windows(t, 0, size, overlap), Cursors(t, 0, size, overlap);
      && (|cs| > 0 ==> ps[0] == 0 && ps[|cs| - 1] + |cs[|cs| - 1]| == |t|)
      && (forall k | 0 <= k < |cs| :: ps[k] + |cs[k]| <= |t| && cs[k] == t[ps[k] .. ps[k] + |cs[k]|])
  {
    var cs := Windows(t, 0, size, overlap);
    var ps := Cursors(t, 0, size, overlap);
    WindowsAtCursors(t, 0, size, overlap);
    CursorsAdvance(t, 0, size, overlap);
    forall k | 0 <= k < |cs|
      ensures ps[k] + |cs[k]| <= |t| && cs[k] == t[ps[k] .. ps[k] + |cs[k]|]
    {
      assert |cs[k]| == WindowEnd(|t|, ps[k], size) - ps[k];
    }
    if |cs| > 0 {
      var last := |cs| - 1;
      assert WindowEnd(|t|, ps[last], size) == |t|;
      assert |cs[last]| == |t| - ps[last];
    }
  }

  /** Each window after the first starts `overlap` characters before the previous one ends. */
  lemma WindowsStartBeforeEnd(t: string, size: int, overlap: nat)
    requires overlap < size
    ensures |Cursors(t, 0, size, overlap)| == |Windows(t, 0, size, overlap)|
    ensures var cs, ps := Windows(t, 0, size, overlap), Cursors(t, 0, size, overlap);
      forall k | 0 < k < |cs| :: StartsBeforeEnd(ps[k - 1], cs[k - 1], ps[k], overlap)
  {
    var cs := Windows(t, 0, size, overlap);
    var ps := Cursors(t, 0, size, overlap);
    WindowsAtCursors(t, 0, size, overlap);
    CursorsAdvance(t, 0, size, overlap);
    forall k | 0 < k < |cs|
      ensures StartsBeforeEnd(ps[k - 1], cs[k - 1], ps[k], overlap)
    {
      assert |cs[k - 1]| == size;
    }
  }

  lemma WindowsTile(t: string, size: int, overlap: nat)
    requires overlap < size
    ensures Tiles(t, Windows(t, 0, size, overlap), Cursors(t, 0, size, overlap), overlap)
  {
    WindowsAreSlices(t, size, overlap);
    WindowsStartBeforeEnd(t, size, overlap);
    WindowsOverlap(t, 0, size, overlap);
  }

  /** Boundaries of `chunk_text`'s chunks, given by the cursor positions `ps`: the first chunk
      starts at 0, chunk `k` is the normalised text from `ps[k]` on, the last ends at the end
      of the normalised text, each next chunk starts `overlap` characters before the previous
      one ended, and so begins with that chunk's last `overlap` characters. */
  lemma ChunkTiling(text: string, size: int, overlap: nat)
    requires overlap < size
    ensures var t := Normalize(text);
      Tiles(t, ChunkText(text, size, overlap), Cursors(t, 0, size, overlap), overlap)
  {
    var t := Normalize(text);
    assert ChunkText(text, size, overlap) == Windows(t, 0, size, overlap);
    WindowsTile(t, size, overlap);
  }

  // ---------------------------------------------------------------------------
  // Reconstruction: the chunks, overlaps removed, spell the normalised text

  /** The concatenation of the chunks with the first `overlap` characters of each dropped. */
  function DropOverlaps(cs: seq<string>, overlap: nat): string
  {
    if |cs| == 0 then []
    else cs[0][Min(overlap, |cs[0]|)..] + DropOverlaps(cs[1..], overlap)
  }

  /** The first chunk followed by every later chunk without its leading overlap. */
  function Reassemble(cs: seq<string>, overlap: nat): string
  {
    if |cs| == 0 then [] else cs[0] + DropOverlaps(cs[1..], overlap)
  }

  lemma {:induction false} WindowsDropOverlaps(t: string, i: nat, size: int, overlap: int)
    requires 0 <= overlap < size
    requires i < |t| && i + overlap <= |t|
    ensures DropOverlaps(Windows(t, i, size, overlap), overlap) == t[i + overlap..]
    decreases |t| - i
  {
    var cs := Windows(t, i, size, overlap);
    var j := WindowEnd(|t|, i, size);
    var head := t[i..j];
    assert Min(overlap, |head|) == overlap;
    assert head[overlap..] == t[i + overlap..j];
    if j < |t| {
      var i' := NextCursor(j, overlap);
      var rest := Windows(t, i', size, overlap);
      assert cs == [head] + rest;
      assert cs[1..] == rest;
      WindowsDropOverlaps(t, i', size, overlap);
      assert t[i + overlap..] == t[i + overlap..j] + t[j..];
    } else {
      assert cs == [head];
      assert cs[1..] == [];
    }
  }

  /** `chunks[0]` followed by each later chunk with its first `overlap` characters dropped
      is the whitespace-normalised text. */
  lemma ChunksReassemble(text: string, size: int, overlap: int)
    requires 0 <= overlap < size
    ensures Reassemble(ChunkText(text, size, overlap), overlap) == Normalize(text)
  {
    var t := Normalize(text);
    var cs := ChunkText(text, size, overlap);
    if |t| > 0 {
      assert cs == Windows(t, 0, size, overlap);
      var j := WindowEnd(|t|, 0, size);
      if j < |t| {
        var i' := NextCursor(j, overlap);
        assert cs == [t[0..j]] + Windows(t, i', size, overlap);
        assert cs[1..] == Windows(t, i', size, overlap);
        WindowsDropOverlaps(t, i', size, overlap);
        assert t == t[..j] + t[j..];
      } else {
        assert cs == [t[0..j]];
        assert cs[1..] == [];
      }
    }
  }

  /** With the defaults 800/150, a text whose normalised form has 2000 characters gives three
      chunks of 800, 800 and 700 characters. */
  lemma ChunkExample(text: string)
    requires |Normalize(text)| == 2000
    ensures var cs := ChunkText(text, DefaultSize, DefaultOverlap);
      |cs| == 3 && |cs[0]| == 800 && |cs[1]| == 800 && |cs[2]| == 700
  {
    var t := Normalize(text);
    assert Windows(t, 1300, 800, 150) == [t[1300..2000]];
    assert Windows(t, 650, 800, 150) == [t[650..1450]] + Windows(t, 1300, 800, 150);
    assert Windows(t, 0, 800, 150) == [t[0..800]] + Windows(t, 650, 800, 150);
  }

  /** Chunks are cut from the whitespace-normalised text, so none contains a line break; this is
      what lets the prompt give each retrieved chunk a line of its own. */
  lemma ChunksHaveNoNewline(text: string, size: int, overlap: int)
    requires 0 < size && overlap < size
    ensures forall k | 0 <= k < |ChunkText(text, size, overlap)| :: '\n' !in ChunkText(text, size, overlap)[k]
  {
    var t := Normalize(text);
    NormalizeShape(text);
    WellSpacedNoNewline(t);
    var cs := ChunkText(text, size, overlap);
    forall k | 0 <= k < |cs| ensures '\n' !in cs[k] {
      ContainsMissingChar(t, cs[k], '\n');
    }
  }
}
