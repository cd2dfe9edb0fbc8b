/**
 * Packed 24-bit colours (src/main.rs:13-15). A pixel is an unsigned integer
 * whose bits 16-23 hold red, bits 8-15 green and bits 0-7 blue; the source
 * extracts a channel with `(p >> k) & 0xFF`, which on an unsigned integer is
 * `(p / 2^k) % 256`, the form used here.
 */
module Color {

  /** The largest channel value, the maxval the writer declares. */
  const ChannelMax: nat := 255

  /** One decoded pixel. */
  datatype Rgb = Rgb(red: nat, green: nat, blue: nat)

  function Red(p: nat): (c: nat)
    ensures c <= ChannelMax
  {
    (p / 0x1_0000) % 0x100
  }

  function Green(p: nat): (c: nat)
    ensures c <= ChannelMax
  {
    (p / 0x100) % 0x100
  }

  function Blue(p: nat): (c: nat)
    ensures c <= ChannelMax
  {
    p % 0x100
  }

  /** The three channels of p, as the writer extracts them. */
  function Unpack(p: nat): (c: Rgb)
    ensures c.red <= ChannelMax && c.green <= ChannelMax && c.blue <= ChannelMax
  {
    Rgb(Red(p), Green(p), Blue(p))
  }

  /** The packed value with the given channels: red in the most significant byte. */
  function Pack(c: Rgb): nat {
    c.red * 0x1_0000 + c.green * 0x100 + c.blue
  }

  lemma DivModUnique(k: nat, d: nat, q: nat, r: nat)
    requires 0 < d && r < d && k == q * d + r
    ensures k / d == q && k % d == r
  {
    var q', r' := k / d, k % d;
    assert (q - q') * d == r' - r;
    if q > q' {
      MulAtLeast(q - q', d);
    } else if q < q' {
      MulAtLeast(q' - q, d);
    }
  }

  lemma MulAtLeast(a: int, d: nat)
    requires a >= 1
    ensures a * d >= d
  {
  }

  /** Extracting the channels of a packed colour gives back those channels. */
  lemma UnpackPack(c: Rgb)
    requires c.red <= ChannelMax && c.green <= ChannelMax && c.blue <= ChannelMax
    ensures Unpack(Pack(c)) == c
  {
    var p := Pack(c);
    DivModUnique(p, 0x100, c.red * 0x100 + c.green, c.blue);
    DivModUnique(p, 0x1_0000, c.red, c.green * 0x100 + c.blue);
    DivModUnique(c.red * 0x100 + c.green, 0x100, c.red, c.green);
    DivModUnique(c.red, 0x100, 0, c.red);
  }

  /**
   * Packing the extracted channels rebuilds the low 24 bits of the pixel:
   * bits above 23 are dropped, and a value below 2^24 comes back unchanged.
   */
  lemma PackUnpack(p: nat)
    ensures Pack(Unpack(p)) == p % 0x100_0000
    ensures p < 0x100_0000 ==> Pack(Unpack(p)) == p
  {
    var hi := p / 0x100;
    var top := hi / 0x100;
    assert p == hi * 0x100 + Blue(p);
    assert hi == top * 0x100 + Green(p);
    assert top == (top / 0x100) * 0x100 + Red(p);
    assert p / 0x1_0000 == top;
    assert p == (top / 0x100) * 0x100_0000 + Pack(Unpack(p));
    DivModUnique(p, 0x100_0000, top / 0x100, Pack(Unpack(p)));
  }
}
