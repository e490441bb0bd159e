/** Concrete buffers: one embedded image followed by tag 7, two images with
    tags 7 and 9, and the one-image buffer cut one byte short of its tag. */
module Scenarios {
  import opened Bytes
  import opened Search
  import opened SessionScan

  /** Ten filler bytes 'X' between the signature and the IEND marker. */
  const Filler: seq<Byte> := [0x58, 0x58, 0x58, 0x58, 0x58, 0x58, 0x58, 0x58, 0x58, 0x58]

  /** The four bytes that stand in for the IEND chunk's CRC. */
  const Crc: seq<Byte> := [0, 0, 0, 0]

  /** Signature, filler, IEND, CRC and the 4-byte little-endian tag. */
  function Image(tag: seq<Byte>): seq<Byte>
  {
    PngSignature + Filler + IendMarker + Crc + tag
  }

  const Tag7: seq<Byte> := [7, 0, 0, 0]
  const Tag9: seq<Byte> := [9, 0, 0, 0]

  /** In an image, the signature byte 0x89 appears only at its start and the
      byte 'I' only where the IEND marker starts. */
  lemma ImageBytes(tag: seq<Byte>)
    requires tag == Tag7 || tag == Tag9
    ensures |Image(tag)| == 30
    ensures forall i :: 0 < i < 30 ==> Image(tag)[i] != 0x89
    ensures forall i :: 0 <= i < 18 ==> Image(tag)[i] != 0x49
    ensures OccursAt(Image(tag), PngSignature, 0)
    ensures OccursAt(Image(tag), IendMarker, 18)
    ensures LE32(Image(tag), 26) == tag[0]
  {
  }

  /** A buffer holding one well-formed image yields exactly its tag. */
  lemma OneImage()
    ensures TypeTags(Image(Tag7)) == {7}
  {
    var d := Image(Tag7);
    ImageBytes(Tag7);
    AbsentFirstByte(d, IendMarker, 0, 18);
    FindIsLeast(d, IendMarker, 0, 18);
    assert TagAfter(d, 0) == Some(7);
    TagsBelowStep(d, 0, 0);
    assert TagsBelow(d, 0) == {};
    AbsentFirstByte(d, PngSignature, 8, |d|);
    TagsBelowNoneAbove(d, 8);
  }

  /** The byte layout of two images one after the other. */
  lemma TwoImagesBytes()
    ensures |Image(Tag7) + Image(Tag9)| == 60
    ensures forall i :: 8 <= i < 30 || 38 <= i < 60 ==> (Image(Tag7) + Image(Tag9))[i] != 0x89
    ensures forall i :: 30 <= i < 48 ==> (Image(Tag7) + Image(Tag9))[i] != 0x49
    ensures OccursAt(Image(Tag7) + Image(Tag9), PngSignature, 0)
    ensures OccursAt(Image(Tag7) + Image(Tag9), PngSignature, 30)
    ensures OccursAt(Image(Tag7) + Image(Tag9), IendMarker, 18)
    ensures OccursAt(Image(Tag7) + Image(Tag9), IendMarker, 48)
    ensures LE32(Image(Tag7) + Image(Tag9), 26) == 7
    ensures LE32(Image(Tag7) + Image(Tag9), 56) == 9
  {
  }

  /** In two images one after the other, each signature reads its own tag. */
  lemma TwoImagesTagAfter()
    ensures TagAfter(Image(Tag7) + Image(Tag9), 0) == Some(7)
    ensures TagAfter(Image(Tag7) + Image(Tag9), 30) == Some(9)
  {
    var d := Image(Tag7) + Image(Tag9);
    TwoImagesBytes();
    ImageBytes(Tag7);
    assert forall i :: 0 <= i < 18 ==> d[i] != 0x49;
    AbsentFirstByte(d, IendMarker, 0, 18);
    AbsentFirstByte(d, IendMarker, 30, 48);
    FindIsLeast(d, IendMarker, 0, 18);
    FindIsLeast(d, IendMarker, 30, 48);
  }

  /** Two images one after the other yield both tags. */
  lemma TwoImages()
    ensures TypeTags(Image(Tag7) + Image(Tag9)) == {7, 9}
  {
    var d := Image(Tag7) + Image(Tag9);
    TwoImagesBytes();
    TwoImagesTagAfter();
    assert TagsBelow(d, 0) == {};
    TagsBelowStep(d, 0, 0);
    AbsentFirstByte(d, PngSignature, 8, 30);
    TagsBelowStep(d, 8, 30);
    AbsentFirstByte(d, PngSignature, 38, 60);
    TagsBelowNoneAbove(d, 38);
  }

  /** With only 3 of the 4 tag bytes present the image is skipped. */
  lemma TruncatedTag()
    ensures TypeTags(Image(Tag7)[..29]) == {}
  {
    var d := Image(Tag7)[..29];
    ImageBytes(Tag7);
    assert OccursAt(d, IendMarker, 18) by { assert d[18..22] == Image(Tag7)[18..22]; }
    AbsentFirstByte(d, IendMarker, 0, 18);
    FindIsLeast(d, IendMarker, 0, 18);
    assert TagAfter(d, 0) == None;
    assert OccursAt(d, PngSignature, 0) by { assert d[..8] == Image(Tag7)[..8]; }
    TagsBelowStep(d, 0, 0);
    assert TagsBelow(d, 0) == {};
    AbsentFirstByte(d, PngSignature, 8, |d|);
    TagsBelowNoneAbove(d, 8);
  }
}
