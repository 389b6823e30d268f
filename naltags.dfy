// The Annex B start-code tests of bs.h (section B.1 of ITU-T H.264): a
// byte stream NAL unit starts after 0x000001 or 0x00000001, and a NAL unit's
// bytes end before 0x000000 or 0x000001.
module NalTags {
  import opened Binary
  import opened Stream

  /** The bytes `h264_is_nal_starting_tag` looks at exist: buf[1] is read
      only when buf[0] is 0, buf[2] only when both are 0, buf[3] only when
      buf[2] is 0 as well. */
  predicate StartReadable(buf: seq<Byte>)
  {
    |buf| >= 1 && (buf[0] == 0 ==> |buf| >= 2)
    && (buf[0] == 0 && buf[1] == 0 ==> |buf| >= 3)
    && (buf[0] == 0 && buf[1] == 0 && buf[2] == 0 ==> |buf| >= 4)
  }

  /** The bytes `h264_is_nal_ending_tag` looks at exist. */
  predicate EndReadable(buf: seq<Byte>)
  {
    |buf| >= 1 && (buf[0] == 0 ==> |buf| >= 2) && (buf[0] == 0 && buf[1] == 0 ==> |buf| >= 3)
  }

  /** `h264_is_nal_starting_tag`: buf begins with 00 00 01 or 00 00 00 01. */
  function IsNalStartingTag(buf: seq<Byte>): (r: bool)
    requires StartReadable(buf)
    ensures r ==> |buf| >= 3 && buf[0] == 0 && buf[1] == 0
  {
    if buf[0] != 0 || buf[1] != 0 then false
    else if buf[2] == 1 then true
    else if buf[2] == 0 && buf[3] == 1 then true
    else false
  }

  /** `h264_is_nal_ending_tag`: buf begins with 00 00 00 or 00 00 01. */
  function IsNalEndingTag(buf: seq<Byte>): (r: bool)
    requires EndReadable(buf)
    ensures r ==> |buf| >= 3 && buf[0] == 0 && buf[1] == 0
  {
    if buf[0] != 0 || buf[1] != 0 then false
    else if buf[2] == 0 || buf[2] == 1 then true
    else false
  }

  // ---------------------------------------------------------------------
  // Big-endian values of small runs

  /** A run of bytes is worth 0 exactly when every byte is 0. */
  lemma {:induction false} BigEndianZero(s: seq<Byte>)
    ensures BigEndian(s) == 0 <==> forall i :: 0 <= i < |s| ==> s[i] == 0
  {
    if |s| > 0 {
      var s' := s[..|s| - 1];
      BigEndianZero(s');
      assert forall i :: 0 <= i < |s| - 1 ==> s'[i] == s[i];
    }
  }

  /** A run of bytes is worth 1 exactly when it is zeros and then a last
      byte 1, and at most 1 exactly when that last byte is 0 or 1. */
  lemma BigEndianOne(s: seq<Byte>)
    requires |s| >= 1
    ensures BigEndian(s) == 1 <==> (forall i :: 0 <= i < |s| - 1 ==> s[i] == 0) && s[|s| - 1] == 1
    ensures BigEndian(s) <= 1 <==> (forall i :: 0 <= i < |s| - 1 ==> s[i] == 0) && s[|s| - 1] <= 1
  {
    var s' := s[..|s| - 1];
    BigEndianZero(s');
    assert forall i :: 0 <= i < |s| - 1 ==> s'[i] == s[i];
  }

  // ---------------------------------------------------------------------
  // The tests as lookahead values

  /** The starting tag test is `next_bits(24) == 0x000001 ||
      next_bits(32) == 0x00000001` on the bytes from buf on. */
  lemma StartingTagValue(buf: seq<Byte>)
    requires StartReadable(buf)
    ensures IsNalStartingTag(buf) <==>
            (|buf| >= 3 && BigEndian(buf[..3]) == 1) || (|buf| >= 4 && BigEndian(buf[..4]) == 1)
  {
    if |buf| >= 3 {
      BigEndianOne(buf[..3]);
      assert buf[..3][0] == buf[0] && buf[..3][1] == buf[1] && buf[..3][2] == buf[2];
    }
    if |buf| >= 4 {
      BigEndianOne(buf[..4]);
      assert buf[..4][0] == buf[0] && buf[..4][1] == buf[1] && buf[..4][2] == buf[2];
    }
  }

  /** The ending tag test is `next_bits(24) <= 0x000001` on the bytes from
      buf on. */
  lemma EndingTagValue(buf: seq<Byte>)
    requires EndReadable(buf)
    ensures IsNalEndingTag(buf) <==> |buf| >= 3 && BigEndian(buf[..3]) <= 1
  {
    if |buf| >= 3 {
      BigEndianOne(buf[..3]);
      assert buf[..3][0] == buf[0] && buf[..3][1] == buf[1];
    }
  }

  /** At a byte-aligned cursor with four bytes before `end`, the starting
      tag test on the bytes from byte k agrees with the fields a bit reader
      sees there. */
  lemma StartingTagBits(mem: seq<Byte>, end: int, k: nat)
    requires end <= |mem| && k + 4 <= end
    ensures IsNalStartingTag(mem[k..]) <==> Field(mem, end, 8 * k, 24) == 1 || Field(mem, end, 8 * k, 32) == 1
  {
    StartingTagValue(mem[k..]);
    AlignedBytesField(mem, end, k, 3);
    AlignedBytesField(mem, end, k, 4);
    assert mem[k..][..3] == mem[k..k + 3] && mem[k..][..4] == mem[k..k + 4];
  }

  /** At a byte-aligned cursor with three bytes before `end`, the ending tag
      test agrees with the 24-bit field there. */
  lemma EndingTagBits(mem: seq<Byte>, end: int, k: nat)
    requires end <= |mem| && k + 3 <= end
    ensures IsNalEndingTag(mem[k..]) <==> Field(mem, end, 8 * k, 24) <= 1
  {
    EndingTagValue(mem[k..]);
    AlignedBytesField(mem, end, k, 3);
    assert mem[k..][..3] == mem[k..k + 3];
  }

  /** 00 00 00 01 and 00 00 01 x start a NAL unit, 00 01 00 01 does not;
      00 00 00 and 00 00 01 end one, 00 00 02 does not. */
  lemma TagExamples(x: Byte)
    ensures IsNalStartingTag([0, 0, 0, 1]) && IsNalStartingTag([0, 0, 1, x])
    ensures !IsNalStartingTag([0, 1, 0, 1])
    ensures IsNalEndingTag([0, 0, 0]) && IsNalEndingTag([0, 0, 1]) && !IsNalEndingTag([0, 0, 2])
  {
  }
}
