/** The key search on files that the writer produced. */
module WrittenSearch {
  import opened Bytes
  import opened PropertyList
  import opened FileFormat
  import opened Objects
  import opened ObjectGraph
  import opened KeySearch
  import opened KeySearchAgreement
  import opened ObjectHeap
  import opened Encoding
  import opened ReadBack
  import opened FileLayout
  import opened RoundTrip

  /** Every object takes at least one byte. */
  lemma {:induction false} ObjectsTakeSpace(h: Heap, objtable: map<Ref, nat>, size: nat, xs: seq<Ref>, i: nat)
    requires CanWrite(h, objtable, xs) && i <= |xs|
    ensures |ObjectsBytes(h, objtable, size, xs[..i])| + (|xs| - i) <= |ObjectsBytes(h, objtable, size, xs)|
    decreases |xs| - i
  {
    hide ObjectBytes;
    if i < |xs| {
      ObjectsTakeSpace(h, objtable, size, xs, i + 1);
      assert xs[..i + 1][..i] == xs[..i];
    } else {
      assert xs[..i] == xs;
    }
  }

  /** Only the last object of a file ends where the offset table starts. */
  lemma {:induction false} LastObjectEndsTable(h: Heap, objtable: map<Ref, nat>, xs: seq<Ref>, n: nat)
    requires Writable(h, objtable, xs) && n < |xs| && FileOf(h, objtable, xs).Valid()
    ensures var d := FileOf(h, objtable, xs);
            d.OffsetOf(n) + |ObjectBytes(h[xs[n]], objtable, d.trailer.objectRefSize)| == d.trailer.offsetTableOffset <==>
              n == |xs| - 1
  {
    hide ObjectBytes, FileBytes, Document.OffsetOf;
    var t := Layout(h, objtable, xs);
    OffsetIsReadBack(h, objtable, xs, n);
    ObjectsTakeSpace(h, objtable, t.objectRefSize, xs, n + 1);
    assert xs[..n + 1][..n] == xs[..n];
    if n == |xs| - 1 {
      assert xs[..n + 1] == xs;
    }
  }

  /** An ASCII string of the length of the key, with the last number of the file. */
  ghost predicate IsLastString(h: Heap, objtable: map<Ref, nat>, xs: seq<Ref>, x: Ref, chars: seq<unichar>) {
    && x in h && x in objtable && objtable[x] == |xs| - 1
    && h[x].Simple? && h[x].value.String?
    && IsAscii(h[x].value.chars) && |h[x].value.chars| == |chars|
  }

  /** A written string is never hidden from a key of its own length, and ends the table only as the last object. */
  lemma {:induction false} WrittenStringIsClear(h: Heap, objtable: map<Ref, nat>, xs: seq<Ref>, n: nat, chars: seq<unichar>)
    requires Writable(h, objtable, xs) && n < |xs| && FileOf(h, objtable, xs).Valid()
    requires h[xs[n]].Simple? && h[xs[n]].value.String?
    ensures var d := FileOf(h, objtable, xs);
            var s := h[xs[n]].value.chars;
            && d.OffsetOf(n) < d.trailer.offsetTableOffset
            && (|s| == |chars| ==> !IsHidden(d, d.OffsetOf(n), chars))
            && (IsLastBytes(d, d.OffsetOf(n), chars) <==> IsAscii(s) && |s| == |chars| && n == |xs| - 1)
  {
    hide FileBytes, Document.OffsetOf, Lead, LengthAt;
    var d := FileOf(h, objtable, xs);
    var s := h[xs[n]].value.chars;
    ObjectIsHeld(h, objtable, xs, n);
    LastObjectEndsTable(h, objtable, xs, n);
    if IsAscii(s) {
      HoldsParts(d, d.OffsetOf(n), Lead(0x50, |s|), AsciiBytes(s));
      LengthIsReadBack(d, d.OffsetOf(n), 0x50, |s|);
    } else {
      HoldsParts(d, d.OffsetOf(n), Lead(0x60, |s|), UnicodeBytes(s));
      LengthIsReadBack(d, d.OffsetOf(n), 0x60, |s|);
    }
  }

  lemma {:induction false} NotAString(eq: Equality, d: Document, g: Graph, off: nat, chars: seq<unichar>)
    requires IsGraphOf(g, d) && off < d.trailer.offsetTableOffset
    requires Meaning(eq, g, off).Some? && !Meaning(eq, g, off).value.String?
    ensures !IsHidden(d, off, chars) && !IsLastBytes(d, off, chars)
  {
    if d.bytes[off] / 16 == 0x5 {
      AsciiStringAt(eq, d, g, off);
    }
  }

  /** A file in which the numbers are right, and its object graph. */
  ghost predicate IsFile(eq: Equality, h: Heap, rank: map<Ref, nat>, objtable: map<Ref, nat>, xs: seq<Ref>, d: Document, g: Graph) {
    && IsAcyclic(h, rank) && Writable(h, objtable, xs) && IsNumbered(eq, h, objtable, xs)
    && d == FileOf(h, objtable, xs) && IsGraphOf(g, d)
  }

  lemma {:induction false} OffsetInTable(d: Document, n: nat)
    requires d.Valid() && n < d.trailer.numObjects
    ensures d.OffsetOf(n) < d.trailer.offsetTableOffset
  {
  }

  /** When the key with number `n` stops the search although it should not. */
  lemma {:induction false} WrittenKeyStops(eq: Equality, h: Heap, rank: map<Ref, nat>, objtable: map<Ref, nat>, xs: seq<Ref>,
                                           d: Document, g: Graph, n: nat, chars: seq<unichar>)
    requires IsFile(eq, h, rank, objtable, xs, d, g) && n < |xs| && h[xs[n]].Simple? && objtable[xs[n]] == n
    ensures d.OffsetOf(n) < d.trailer.offsetTableOffset
    ensures Meaning(eq, g, d.OffsetOf(n)) == Some(String(chars)) ==> !IsHidden(d, d.OffsetOf(n), chars)
    ensures IsLastBytes(d, d.OffsetOf(n), chars) <==> IsLastString(h, objtable, xs, xs[n], chars)
  {
    hide FileBytes, Document.OffsetOf, IsHidden, IsLastBytes, Stored, IsAcyclic;
    OffsetInTable(d, n);
    ObjectMeans(eq, h, rank, objtable, xs, g, n);
    StoredSimple(h, rank, xs[n]);
    if h[xs[n]].value.String? {
      WrittenStringIsClear(h, objtable, xs, n, chars);
    } else {
      NotAString(eq, d, g, d.OffsetOf(n), chars);
    }
  }

  /** The keys of a written dictionary. */
  lemma {:induction false} WrittenKeys(eq: Equality, h: Heap, rank: map<Ref, nat>, objtable: map<Ref, nat>, xs: seq<Ref>,
                                       d: Document, g: Graph, n: nat)
    requires IsFile(eq, h, rank, objtable, xs, d, g) && n < |xs| && h[xs[n]].DictObject?
    ensures IsParsedDictionary(eq, g, d.OffsetOf(n))
    ensures |Keys(g, d.OffsetOf(n))| == |h[xs[n]].keys|
    ensures forall j :: 0 <= j < |h[xs[n]].keys| ==>
              var key := h[xs[n]].keys[j];
              && key in h && h[key].Simple? && key in objtable
              && objtable[key] < |xs| && xs[objtable[key]] == key
              && Keys(g, d.OffsetOf(n))[j] == d.OffsetOf(objtable[key])
  {
    hide FileBytes, Document.OffsetOf, Document.Valid, Stored;
    NodeIsReadBack(eq, h, rank, objtable, xs, g, n);
    ObjectMeans(eq, h, rank, objtable, xs, g, n);
    IsSoundIn(h, rank, xs[n]);
    var keys := h[xs[n]].keys;
    forall j | 0 <= j < |keys|
      ensures h[xs[n]].Children()[j] == keys[j] && keys[j] in keys
    {
    }
  }

  lemma {:induction false} DistinctOccurOnce(eq: Equality, g: Graph, keys: seq<nat>, stored: seq<PList>, chars: seq<unichar>)
    requires ComparesStrings(eq) && DistinctKeys(eq, stored) && |stored| == |keys|
    requires forall j :: 0 <= j < |keys| ==> Meaning(eq, g, keys[j]) == Some(stored[j])
    ensures OccursOnce(eq, g, keys, chars)
  {
    hide Meaning;
    var m := FirstKey(eq, g, keys, chars, 0);
    forall j | m < j < |keys|
      ensures Meaning(eq, g, keys[j]) != Some(String(chars))
    {
      assert !eq(stored[m], stored[j]);
    }
  }

  /** What the keys of a written dictionary mean. */
  lemma {:induction false} WrittenKeyMeans(eq: Equality, h: Heap, rank: map<Ref, nat>, objtable: map<Ref, nat>, xs: seq<Ref>,
                                           d: Document, g: Graph, x: Ref)
    requires IsFile(eq, h, rank, objtable, xs, d, g) && x in h && h[x].Simple?
    requires x in objtable && objtable[x] < |xs| && xs[objtable[x]] == x
    ensures d.trailer.Fits(|d.bytes|) && objtable[x] < d.trailer.numObjects
    ensures Meaning(eq, g, d.OffsetOf(objtable[x])) == Some(Lossy(h[x].value))
  {
    hide Document.OffsetOf, FileBytes, Stored, Meaning, IsNumbered, CanWrite, IsAcyclic;
    ObjectMeans(eq, h, rank, objtable, xs, g, objtable[x]);
    StoredSimple(h, rank, x);
  }

  /** The keys of a written dictionary are distinct in the file, so none is a string twice. */
  lemma {:induction false} WrittenKeysOccurOnce(eq: Equality, h: Heap, rank: map<Ref, nat>, objtable: map<Ref, nat>, xs: seq<Ref>,
                                                d: Document, g: Graph, n: nat, chars: seq<unichar>)
    requires IsFile(eq, h, rank, objtable, xs, d, g) && n < |xs| && h[xs[n]].DictObject? && ComparesStrings(eq)
    requires d.trailer.Fits(|d.bytes|) && n < d.trailer.numObjects
    ensures g(d.OffsetOf(n)).Branch? && OccursOnce(eq, g, Keys(g, d.OffsetOf(n)), chars)
  {
    hide Document.OffsetOf, Document.Valid, FileBytes, IsAcyclic, Meaning, ComparesStrings, DistinctKeys, CanWrite, OccursOnce;
    WrittenKeys(eq, h, rank, objtable, xs, d, g, n);
    var refs, keys := h[xs[n]].keys, Keys(g, d.OffsetOf(n));
    assert IsStorable(eq, h, xs[n]);
    var stored := StoredKeys(h, refs);
    forall j | 0 <= j < |keys|
      ensures Meaning(eq, g, keys[j]) == Some(stored[j])
    {
      WrittenKeyMeans(eq, h, rank, objtable, xs, d, g, refs[j]);
    }
    DistinctOccurOnce(eq, g, keys, stored, chars);
  }

  lemma FileFits(eq: Equality, h: Heap, rank: map<Ref, nat>, objtable: map<Ref, nat>, xs: seq<Ref>, d: Document, g: Graph)
    requires IsFile(eq, h, rank, objtable, xs, d, g)
    ensures IsGraphOf(g, d) && d.Valid() && d.trailer.Fits(|d.bytes|) && d.trailer.numObjects == |xs|
    ensures forall i :: 0 <= i < |xs| ==> xs[i] in h
  {
    hide Document.OffsetOf, FileBytes, IsNumbered, IsAcyclic;
  }

  /**
    For a dictionary of a written file, the search gives what the dictionary holds if and only if none of
    the keys up to the matching one is an ASCII string of that length with the last number of the file.
   */
  lemma {:induction false} WrittenSearchAgreesIff(eq: Equality, h: Heap, rank: map<Ref, nat>, objtable: map<Ref, nat>, xs: seq<Ref>,
                                                  d: Document, g: Graph, n: nat, chars: seq<unichar>, buffer: Option<seq<byte>>)
    requires IsFile(eq, h, rank, objtable, xs, d, g) && n < |xs| && h[xs[n]].DictObject? && ComparesStrings(eq)
    requires HoldsAscii(chars, buffer)
    ensures IsParsedDictionary(eq, g, d.OffsetOf(n)) && |Keys(g, d.OffsetOf(n))| == |h[xs[n]].keys|
    ensures var off := d.OffsetOf(n);
            var m := FirstKey(eq, g, Keys(g, off), chars, 0);
            Agrees(eq, g, off, chars, SearchResult(eq, d, g, off, String(chars), buffer)) <==>
            (m < |h[xs[n]].keys| && buffer.Some? ==>
               forall j :: 0 <= j <= m ==> !IsLastString(h, objtable, xs, h[xs[n]].keys[j], chars))
  {
    hide Document.OffsetOf, IsHidden, IsLastBytes, IsLastString, SearchResult, Agrees, ComparesStrings, FileBytes, Stored;
    hide OccursOnce, HoldsAscii, Meaning, IsFile, Document.Valid;
    FileFits(eq, h, rank, objtable, xs, d, g);
    WrittenKeys(eq, h, rank, objtable, xs, d, g, n);
    var off, refs := d.OffsetOf(n), h[xs[n]].keys;
    WrittenKeysOccurOnce(eq, h, rank, objtable, xs, d, g, n, chars);
    SearchAgreesOnceIff(eq, d, g, off, chars, buffer);
    forall j | 0 <= j < |refs|
      ensures Meaning(eq, g, Keys(g, off)[j]) == Some(String(chars)) ==> !IsHidden(d, Keys(g, off)[j], chars)
      ensures IsLastBytes(d, Keys(g, off)[j], chars) <==> IsLastString(h, objtable, xs, refs[j], chars)
    {
      WrittenKeyStops(eq, h, rank, objtable, xs, d, g, objtable[refs[j]], chars);
    }
  }
}
