/** The per-file scan of scripts/extract_session_types.py: find every PNG
    signature in a session file, find the first `IEND` marker at or after it,
    skip the marker and the 4-byte CRC that follows it, and read the next four
    bytes as an unsigned 32-bit little-endian type tag. */
module SessionScan {
  import opened Bytes
  import opened Search

  datatype Option<T> = None | Some(value: T)

  /** The 8-byte PNG signature 89 'P' 'N' 'G' CR LF 1A LF (section 5.2 of the PNG specification). */
  const PngSignature: seq<Byte> := [0x89, 0x50, 0x4E, 0x47, 0x0D, 0x0A, 0x1A, 0x0A]

  /** The chunk type of the PNG image trailer, "IEND" in ASCII (section 11.2.5). */
  const IendMarker: seq<Byte> := [0x49, 0x45, 0x4E, 0x44]

  /** Two signatures never overlap: the byte 0x89 that starts the signature
      appears nowhere else in it, so a second occurrence starts at least 8 bytes on. */
  lemma SignatureNoSelfOverlap(data: seq<Byte>, i: int, j: int)
    requires OccursAt(data, PngSignature, i) && OccursAt(data, PngSignature, j)
    requires i < j
    ensures i + |PngSignature| <= j
  {
    assert data[j] == data[j..j + 8][0] == 0x89;
    assert forall k :: i < k < i + 8 ==> data[k] == data[i..i + 8][k - i] != 0x89;
  }

  /** The tag read for a signature found at `idx`: the first IEND at or after
      `idx` is found, the tag starts 8 bytes after it (marker plus CRC), and it
      is read only when its four bytes lie inside the buffer. */
  function TagAfter(data: seq<Byte>, idx: nat): (r: Option<nat>)
    ensures r.Some? ==> r.value < Two32
  {
    var endIdx := Find(data, IendMarker, idx);
    if endIdx == -1 then None
    else if endIdx + 8 + 4 <= |data| then Some(LE32(data, endIdx + 8))
    else None
  }

  /** TagAfter against the first-IEND reference: a tag is recorded exactly when
      the first IEND at or after `idx` leaves at least 4 bytes after its CRC,
      and it is then the little-endian value of those bytes; a buffer that ends
      0 to 3 bytes after the CRC gives nothing. */
  lemma TagAfterSpec(data: seq<Byte>, idx: nat, e: int)
    requires idx <= e && OccursAt(data, IendMarker, e)
    requires forall j :: idx <= j < e ==> !OccursAt(data, IendMarker, j)
    ensures TagAfter(data, idx).Some? <==> e + 12 <= |data|
    ensures e + 12 <= |data| ==> TagAfter(data, idx).value == LE32(data, e + 8)
  {
  }

  /** Without any IEND at or after `idx` no tag is read. */
  lemma TagAfterNoIend(data: seq<Byte>, idx: nat)
    requires forall j :: idx <= j ==> !OccursAt(data, IendMarker, j)
    ensures TagAfter(data, idx) == None
  {
  }

  /** A signature at `i` whose tag gets recorded. */
  ghost predicate Recorded(data: seq<Byte>, i: int)
  {
    OccursAt(data, PngSignature, i) && TagAfter(data, i).Some?
  }

  /** The tags recorded for the signatures that start below `n`. */
  ghost function TagsBelow(data: seq<Byte>, n: int): set<nat>
  {
    set i | 0 <= i < n && Recorded(data, i) :: TagAfter(data, i).value
  }

  /** The set of type tags of one file: one per signature occurrence whose
      first following IEND leaves room for the tag. */
  ghost function TypeTags(data: seq<Byte>): set<nat>
  {
    TagsBelow(data, |data|)
  }

  /** Signatures at or beyond `n` add nothing when none occurs there. */
  lemma TagsBelowNoneAbove(data: seq<Byte>, n: int)
    requires forall j :: n <= j ==> !OccursAt(data, PngSignature, j)
    ensures TagsBelow(data, n) == TypeTags(data)
  {
  }

  /** One step of the scan: from a cursor `offset` whose next signature is at
      `idx`, the tags below `idx + 8` are those below `offset` plus the one
      recorded for `idx`, because no signature starts strictly between. */
  lemma TagsBelowStep(data: seq<Byte>, offset: nat, idx: nat)
    requires offset <= idx && OccursAt(data, PngSignature, idx)
    requires forall j :: offset <= j < idx ==> !OccursAt(data, PngSignature, j)
    ensures TagsBelow(data, idx + 8) ==
            TagsBelow(data, offset) + (if Recorded(data, idx) then {TagAfter(data, idx).value} else {})
  {
    forall j | idx < j < idx + 8
      ensures !OccursAt(data, PngSignature, j)
    {
      if OccursAt(data, PngSignature, j) {
        SignatureNoSelfOverlap(data, idx, j);
      }
    }
  }

  /** Every recorded tag is an unsigned 32-bit value. */
  lemma TypeTagsBounded(data: seq<Byte>)
    ensures forall t :: t in TypeTags(data) ==> t < Two32
  {
  }

  /** A buffer without a PNG signature yields no tags. */
  lemma NoSignatureNoTags(data: seq<Byte>)
    requires Find(data, PngSignature, 0) == -1
    ensures TypeTags(data) == {}
  {
  }

  /** `visited` lists, in ascending order, exactly the signature occurrences
      that start below `bound`. */
  ghost predicate VisitedBelow(data: seq<Byte>, visited: seq<nat>, bound: int)
  {
    && (forall k :: 0 <= k < |visited| ==> OccursAt(data, PngSignature, visited[k]) && visited[k] < bound)
    && (forall k, l :: 0 <= k < l < |visited| ==> visited[k] < visited[l])
    && (forall i :: 0 <= i < bound && OccursAt(data, PngSignature, i) ==> i in visited)
  }

  /** Moving the cursor from `offset` to 8 bytes past the next signature `idx`
      skips no signature and keeps the visited list ascending. */
  lemma VisitedStep(data: seq<Byte>, visited: seq<nat>, offset: nat, idx: nat)
    requires VisitedBelow(data, visited, offset)
    requires offset <= idx && OccursAt(data, PngSignature, idx)
    requires forall j :: offset <= j < idx ==> !OccursAt(data, PngSignature, j)
    ensures VisitedBelow(data, visited + [idx], idx + 8)
  {
    var v := visited + [idx];
    forall i | 0 <= i < idx + 8 && OccursAt(data, PngSignature, i)
      ensures i in v
    {
      if idx < i {
        SignatureNoSelfOverlap(data, idx, i);
      } else if i < offset {
        assert i in visited;
      }
    }
  }

  /** The per-file loop (lines 19 and 22-35): starting at cursor 0, find the
      next signature, read its tag if the first IEND after it leaves room, add
      the tag to the file's set and to the global set, and move the cursor 8
      bytes past the signature's start; stop when no signature remains.
      `visited` lists the signature offsets the loop stopped at: every
      occurrence, in ascending order. */
  method ScanFile(data: seq<Byte>, allIn: set<nat>) returns (types: set<nat>, allOut: set<nat>, ghost visited: seq<nat>)
    ensures types == TypeTags(data)
    ensures allOut == allIn + types
    ensures VisitedBelow(data, visited, |data|)
  {
    types := {};
    allOut := allIn;
    visited := [];
    var pngHeader := PngSignature;
    var offset: nat := 0;
    while true
      invariant offset <= |data|
      invariant types == TagsBelow(data, offset)
      invariant allOut == allIn + types
      invariant VisitedBelow(data, visited, offset)
      decreases |data| - offset
    {
      var idx := Find(data, pngHeader, offset);
      if idx == -1 {
        TagsBelowNoneAbove(data, offset);
        break;
      }
      TagsBelowStep(data, offset, idx);
      VisitedStep(data, visited, offset, idx);
      var endIdx := Find(data, IendMarker, idx);
      if endIdx != -1 {
        var typeOffset := endIdx + 8;
        if typeOffset + 4 <= |data| {
          var typeVal := LE32(data, typeOffset);
          types := types + {typeVal};
          allOut := allOut + {typeVal};
        }
      }
      visited := visited + [idx];
      offset := idx + 8;
    }
  }
}
