/**
 * A reader for the P3 text that the serializer writes: the magic number,
 * width, height and maxval, then one line of three decimal channels per
 * pixel. It accepts exactly the layout the writer produces (single
 * separators, no comments) and is the inverse the writer is checked against.
 */
module PpmReader {

  import opened Wrappers
  import opened Decimal
  import opened Color
  import opened Ppm

  /** What a P3 file describes: its size, its maxval and its pixels in file order. */
  datatype Image = Image(width: nat, height: nat, maxval: nat, samples: seq<Rgb>)

  /** The decoded channels of each pixel value. */
  function Decoded(ps: seq<nat>): seq<Rgb> {
    seq(|ps|, k requires 0 <= k < |ps| => Unpack(ps[k]))
  }

  /** Pixel records up to the end of the text: "r g b\n" each. */
  function ReadRecords(s: string): Option<seq<Rgb>>
    decreases |s|
  {
    if s == [] then Some([])
    else
      match ReadField(s, ' ')
      case None => None
      case Some((r, s1)) =>
        match ReadField(s1, ' ')
        case None => None
        case Some((g, s2)) =>
          match ReadField(s2, '\n')
          case None => None
          case Some((b, s3)) =>
            match ReadRecords(s3)
            case None => None
            case Some(rest) => Some([Rgb(r, g, b)] + rest)
  }

  predicate WithinMax(samples: seq<Rgb>, maxval: nat) {
    forall k :: 0 <= k < |samples| ==>
      samples[k].red <= maxval && samples[k].green <= maxval && samples[k].blue <= maxval
  }

  /**
   * Parses a whole file. It fails unless the magic number is "P3", the
   * header is complete, every record is well formed, there are exactly
   * width * height records and no channel exceeds maxval.
   */
  function ParsePpm(s: string): (r: Option<Image>)
    ensures r.Some? ==> |r.value.samples| == r.value.width * r.value.height
    ensures r.Some? ==> WithinMax(r.value.samples, r.value.maxval)
  {
    if |s| < 3 || s[..3] != "P3\n" then None
    else
      match ReadField(s[3..], ' ')
      case None => None
      case Some((width, s1)) =>
        match ReadField(s1, ' ')
        case None => None
        case Some((height, s2)) =>
          match ReadField(s2, '\n')
          case None => None
          case Some((maxval, s3)) =>
            match ReadRecords(s3)
            case None => None
            case Some(samples) =>
              if |samples| == width * height && WithinMax(samples, maxval)
              then Some(Image(width, height, maxval, samples))
              else None
  }

  /** One record followed by more text reads as that pixel's channels, then the rest. */
  lemma ReadRecordStep(p: nat, rest: string)
    ensures ReadRecords(Record(p) + rest)
         == match ReadRecords(rest)
            case None => None
            case Some(more) => Some([Unpack(p)] + more)
  {
    var s2 := Format(Blue(p)) + "\n" + rest;
    var s1 := Format(Green(p)) + " " + s2;
    assert Record(p) + rest == Format(Red(p)) + " " + s1;
    ReadFieldOfFormat(Red(p), ' ', s1);
    ReadFieldOfFormat(Green(p), ' ', s2);
    ReadFieldOfFormat(Blue(p), '\n', rest);
  }

  /** Each record reads back as the channels of its pixel. */
  lemma {:induction false} ReadRecordsOfBody(ps: seq<nat>)
    ensures ReadRecords(Body(ps)) == Some(Decoded(ps))
    decreases |ps|
  {
    if ps == [] {
      assert Decoded(ps) == [];
    } else {
      var tail := Decoded(ps[1..]);
      assert ReadRecords(Body(ps)) == Some([Unpack(ps[0])] + tail) by {
        assert Body(ps) == Record(ps[0]) + Body(ps[1..]);
        ReadRecordStep(ps[0], Body(ps[1..]));
        ReadRecordsOfBody(ps[1..]);
      }
      assert Decoded(ps) == [Unpack(ps[0])] + tail;
    }
  }

  /** The header followed by body, field by field. */
  lemma HeaderFields(width: nat, height: nat, body: string)
    ensures Header(width, height) + body
         == "P3\n" + (Format(width) + " " + (Format(height) + " " + (Format(ChannelMax) + "\n" + body)))
  {
    FormatConstants();
  }

  /** A header whose fields are rendered numbers, then readable records, parses to those values. */
  lemma ParseFields(width: nat, height: nat, maxval: nat, body: string, samples: seq<Rgb>)
    requires ReadRecords(body) == Some(samples)
    requires |samples| == width * height && WithinMax(samples, maxval)
    ensures ParsePpm("P3\n" + (Format(width) + " " + (Format(height) + " " + (Format(maxval) + "\n" + body))))
         == Some(Image(width, height, maxval, samples))
  {
    var s2 := Format(maxval) + "\n" + body;
    var s1 := Format(height) + " " + s2;
    var s0 := Format(width) + " " + s1;
    var s := "P3\n" + s0;
    assert s[..3] == "P3\n" && s[3..] == s0;
    assert ReadField(s0, ' ') == Some((width, s1)) by {
      ReadFieldOfFormat(width, ' ', s1);
    }
    assert ReadField(s1, ' ') == Some((height, s2)) by {
      ReadFieldOfFormat(height, ' ', s2);
    }
    assert ReadField(s2, '\n') == Some((maxval, body)) by {
      ReadFieldOfFormat(maxval, '\n', body);
    }
  }

  /** A header followed by width * height records parses to exactly those values. */
  lemma ParseHeaderBody(width: nat, height: nat, ps: seq<nat>)
    requires |ps| == width * height
    ensures ParsePpm(Header(width, height) + Body(ps))
         == Some(Image(width, height, ChannelMax, Decoded(ps)))
  {
    HeaderFields(width, height, Body(ps));
    ReadRecordsOfBody(ps);
    ParseFields(width, height, ChannelMax, Body(ps), Decoded(ps));
  }

  /**
   * Round trip of the serializer as written: the text parses back to the
   * written size, maxval 255, and the channels of the pixels in the order
   * the loops read them.
   */
  lemma SaveAsPpmRoundTrip(pixels: seq<nat>, width: nat, height: nat)
    requires InBounds(|pixels|, width, height)
    ensures AllBelow(VisitOrder(width, height), |pixels|)
    ensures ParsePpm(Expected(pixels, width, height))
         == Some(Image(width, height, ChannelMax, Decoded(Gather(pixels, VisitOrder(width, height)))))
  {
    InBoundsIff(|pixels|, width, height);
    VisitRowsLength(width, height, width);
    ParseHeaderBody(width, height, Gather(pixels, VisitOrder(width, height)));
  }

  /**
   * Round trip of the corrected serializer: every buffer of width * height
   * pixels comes back as its own channels, in row-major order.
   */
  lemma RowMajorRoundTrip(pixels: seq<nat>, width: nat, height: nat)
    requires |pixels| == width * height
    ensures ParsePpm(RowMajorText(pixels, width, height))
         == Some(Image(width, height, ChannelMax, Decoded(pixels)))
  {
    ParseHeaderBody(width, height, pixels);
  }

  /**
   * The corrected text determines the buffer's 24-bit colours: two buffers
   * of the same size whose texts agree agree on every pixel's low 24 bits.
   */
  lemma RowMajorDeterminesColours(a: seq<nat>, b: seq<nat>, width: nat, height: nat, k: nat)
    requires |a| == |b| == width * height && k < |a|
    requires RowMajorText(a, width, height) == RowMajorText(b, width, height)
    ensures a[k] % 0x100_0000 == b[k] % 0x100_0000
  {
    RowMajorRoundTrip(a, width, height);
    RowMajorRoundTrip(b, width, height);
    assert Decoded(a)[k] == Decoded(b)[k];
    PackUnpack(a[k]);
    PackUnpack(b[k]);
  }

  /**
   * As written, the 2-column, 3-row buffer 0, 1, ..., 5 is not written as
   * a row-major dump: the text differs from the corrected one.
   */
  lemma NonSquareDiffers()
    ensures InBounds(6, 2, 3)
    ensures Expected([0, 1, 2, 3, 4, 5], 2, 3) != RowMajorText([0, 1, 2, 3, 4, 5], 2, 3)
  {
    var pixels: seq<nat> := [0, 1, 2, 3, 4, 5];
    InBoundsIff(6, 2, 3);
    var read := Gather(pixels, VisitOrder(2, 3));
    assert Decoded(read)[3] != Decoded(pixels)[3] by {
      NonSquareRepeatsAndSkips();
      assert read[3] == 2 && pixels[3] == 3;
      assert Blue(2) != Blue(3);
    }
    assert Decoded(read) != Decoded(pixels);
    SaveAsPpmRoundTrip(pixels, 2, 3);
    RowMajorRoundTrip(pixels, 2, 3);
  }
}
