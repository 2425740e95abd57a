/** Colour packing and formatting: an RGB triple packed into one integer
    with red in the lowest byte, its unpacking, `#rrggbb` formatting, and the
    conversion of an RGB image to a grid of packed colours. */
module ImageTools {
  import opened Results

  /** A colour channel value. */
  predicate IsByte(v: int)
  {
    0 <= v < 256
  }

  predicate AllBytes(s: seq<int>)
  {
    forall k :: 0 <= k < |s| ==> IsByte(s[k])
  }

  function Pow256(n: nat): (r: nat)
    ensures r > 0
  {
    if n == 0 then 1 else 256 * Pow256(n - 1)
  }

  /** The packed value of a list of channels: the first channel is the lowest
      byte, each later one is shifted eight bits further up. */
  function Pack(rgb: seq<int>): int
  {
    if rgb == [] then 0 else rgb[0] + 256 * Pack(rgb[1..])
  }

  /** The `n` lowest bytes of `c`, lowest first. `c % 256` is `c & 0xFF` and
      `c / 256` is `c >> 8` for every Python integer, negative ones included. */
  function Unpack(c: int, n: nat): (r: seq<int>)
    ensures |r| == n && AllBytes(r)
    decreases n
  {
    if n == 0 then [] else [c % 256] + Unpack(c / 256, n - 1)
  }

  /** rgbtoint32: folds the reversed channel list with `color = (color << 8) + c`. */
  method RgbToInt32(rgb: seq<int>) returns (color: int)
    ensures color == Pack(rgb)
    ensures |rgb| == 3 ==> color == rgb[0] + 256 * rgb[1] + 65536 * rgb[2]
    ensures AllBytes(rgb) ==> 0 <= color < Pow256(|rgb|)
  {
    color := 0;
    var i := |rgb|;
    while i > 0
      invariant 0 <= i <= |rgb|
      invariant color == Pack(rgb[i..])
    {
      i := i - 1;
      assert rgb[i..][1..] == rgb[i + 1..];
      color := color * 256 + rgb[i];
    }
    assert rgb[0..] == rgb;
    if |rgb| == 3 {
      PackTriple(rgb[0], rgb[1], rgb[2]);
      assert rgb == [rgb[0], rgb[1], rgb[2]];
    }
    if AllBytes(rgb) {
      PackBounds(rgb);
    }
  }

  /** A packed triple is `R + 256 G + 65536 B`. */
  lemma PackTriple(r: int, g: int, b: int)
    ensures Pack([r, g, b]) == r + 256 * g + 65536 * b
  {
    assert [b][1..] == [];
    assert Pack([b]) == b;
    assert [g, b][1..] == [b];
    assert Pack([g, b]) == g + 256 * b;
    assert [r, g, b][1..] == [g, b];
  }

  /** Packing `n` bytes gives a value in `[0, 256^n)`; for a triple, `[0, 2^24)`. */
  lemma {:induction false} PackBounds(rgb: seq<int>)
    requires AllBytes(rgb)
    ensures 0 <= Pack(rgb) < Pow256(|rgb|)
  {
    if rgb != [] {
      assert AllBytes(rgb[1..]);
      PackBounds(rgb[1..]);
    }
  }

  /** int32torgb, with line 37 reading the parameter `color_int`: three times
      append the lowest byte and shift right by eight bits. */
  method Int32ToRgb(colorInt: int) returns (rgb: seq<int>)
    ensures rgb == Unpack(colorInt, 3)
    ensures |rgb| == 3 && AllBytes(rgb)
    ensures 0 <= colorInt < Pow256(3) ==> Pack(rgb) == colorInt
  {
    rgb := [];
    var color := colorInt;
    for n := 0 to 3
      invariant |rgb| == n
      invariant rgb + Unpack(color, 3 - n) == Unpack(colorInt, 3)
    {
      assert Unpack(color, 3 - n) == [color % 256] + Unpack(color / 256, 3 - n - 1);
      rgb := rgb + [color % 256];
      color := color / 256;
    }
    if 0 <= colorInt < Pow256(3) {
      PackOfUnpack(colorInt, 3);
    }
  }

  /** Unpacking a packed list of bytes gives the list back. */
  lemma {:induction false} UnpackOfPack(rgb: seq<int>)
    requires AllBytes(rgb)
    ensures Unpack(Pack(rgb), |rgb|) == rgb
  {
    if rgb != [] {
      var rest := Pack(rgb[1..]);
      assert AllBytes(rgb[1..]);
      assert (rgb[0] + 256 * rest) % 256 == rgb[0];
      assert (rgb[0] + 256 * rest) / 256 == rest;
      UnpackOfPack(rgb[1..]);
    }
  }

  /** Packing the `n` unpacked bytes of a value in `[0, 256^n)` gives it back. */
  lemma {:induction false} PackOfUnpack(c: int, n: nat)
    requires 0 <= c < Pow256(n)
    ensures Pack(Unpack(c, n)) == c
  {
    if n > 0 {
      PackOfUnpack(c / 256, n - 1);
      assert Unpack(c, n)[1..] == Unpack(c / 256, n - 1);
    }
  }

  /** The round trip of the colour key: every byte triple survives packing
      followed by unpacking. */
  lemma RgbRoundTrip(r: int, g: int, b: int, packed: int)
    requires IsByte(r) && IsByte(g) && IsByte(b)
    requires packed == r + 256 * g + 65536 * b
    ensures Unpack(packed, 3) == [r, g, b]
  {
    var rgb := [r, g, b];
    assert AllBytes(rgb);
    UnpackOfPack(rgb);
    PackTriple(r, g, b);
  }

  /** int32torgb exactly as written. Line 38 assigns `color`, which makes it
      a local of the whole function, so the read at line 37 on the first pass
      finds it unbound and raises UnboundLocalError; the append and the shift
      never run. */
  method Int32ToRgbAsWritten(colorInt: int) returns (r: Result<seq<int>>)
    ensures r == Err(UnboundLocalError("color"))
  {
    var rgb: seq<int> := [];
    var color: Option<int> := None;
    for n := 0 to 3
      invariant n == 0 && color == None && rgb == []
    {
      match color {
        case None =>
          return Err(UnboundLocalError("color"));
        case Some(c) =>
          assert false;
      }
    }
    assert false;
    return Ok(rgb);
  }

  /** As written, packing a byte triple and unpacking it never gives the
      triple back. */
  method Int32ToRgbAsWrittenBreaksRoundTrip(r: int, g: int, b: int) returns (back: Result<seq<int>>)
    requires IsByte(r) && IsByte(g) && IsByte(b)
    ensures back != Ok([r, g, b])
  {
    var packed := RgbToInt32([r, g, b]);
    back := Int32ToRgbAsWritten(packed);
  }

  /** The lowercase hexadecimal digit of `0 <= d < 16`. */
  function HexDigit(d: int): char
    requires 0 <= d < 16
  {
    "0123456789abcdef"[d]
  }

  /** The value of a lowercase hexadecimal digit, or -1 for any other character. */
  function HexValue(ch: char): int
  {
    if '0' <= ch <= '9' then ch as int - '0' as int
    else if 'a' <= ch <= 'f' then ch as int - 'a' as int + 10
    else -1
  }

  lemma HexValueOfDigit(d: int)
    requires 0 <= d < 16
    ensures HexValue(HexDigit(d)) == d
  {
  }

  /** The base-16 digits of `v`, most significant first, without leading zeros. */
  function HexDigits(v: nat): (r: string)
    ensures |r| >= 1
  {
    if v < 16 then [HexDigit(v)] else HexDigits(v / 16) + [HexDigit(v % 16)]
  }

  /** The two lowercase hexadecimal digits of a byte, high digit first. */
  function HexPair(v: int): string
    requires IsByte(v)
  {
    [HexDigit(v / 16), HexDigit(v % 16)]
  }

  /** Python's `"%02x" % v`: lowercase hexadecimal, zero-padded to width two;
      a minus sign counts towards the width. */
  function Format02x(v: int): (r: string)
    ensures IsByte(v) ==> r == HexPair(v)
  {
    if v < 0 then "-" + HexDigits(-v)
    else if v < 16 then "0" + HexDigits(v)
    else
      assert IsByte(v) ==> HexDigits(v / 16) == [HexDigit(v / 16)];
      HexDigits(v)
  }

  /** rgb_to_hex: `"#%02x%02x%02x"` of the first three channels, read left
      to right, so a vector of m < 3 entries fails at index m. For a byte
      triple the text is '#' and two lowercase digits per channel, red
      first. */
  function RgbToHex(rgb: seq<int>): (r: Result<string>)
    ensures r.Err? <==> |rgb| < 3
    ensures r.Err? ==> r.error == IndexError(|rgb|, |rgb|)
    ensures r.Ok? && IsByte(rgb[0]) && IsByte(rgb[1]) && IsByte(rgb[2]) ==>
      r.value == "#" + HexPair(rgb[0]) + HexPair(rgb[1]) + HexPair(rgb[2])
  {
    if |rgb| < 3 then Err(IndexError(|rgb|, |rgb|))
    else Ok("#" + Format02x(rgb[0]) + Format02x(rgb[1]) + Format02x(rgb[2]))
  }

  /** Reads back the three channels of a `#rrggbb` string. */
  function ParseHex(s: string): (r: seq<int>)
    requires |s| == 7
  {
    [ 16 * HexValue(s[1]) + HexValue(s[2]),
      16 * HexValue(s[3]) + HexValue(s[4]),
      16 * HexValue(s[5]) + HexValue(s[6]) ]
  }

  /** Formatting a byte triple as `#rrggbb` loses nothing: parsing the text
      gives the triple back, in red, green, blue order. */
  lemma HexRoundTrip(rgb: seq<int>)
    requires |rgb| == 3 && AllBytes(rgb)
    ensures RgbToHex(rgb).Ok? && ParseHex(RgbToHex(rgb).value) == rgb
  {
    assert IsByte(rgb[0]) && IsByte(rgb[1]) && IsByte(rgb[2]);
    var p0, p1, p2 := HexPair(rgb[0]), HexPair(rgb[1]), HexPair(rgb[2]);
    var s := RgbToHex(rgb).value;
    assert s == "#" + p0 + p1 + p2;
    assert s[1] == p0[0] && s[2] == p0[1];
    assert s[3] == p1[0] && s[4] == p1[1];
    assert s[5] == p2[0] && s[6] == p2[1];
    HexPairValue(rgb[0]);
    HexPairValue(rgb[1]);
    HexPairValue(rgb[2]);
    var parsed := ParseHex(s);
    assert parsed[0] == rgb[0] && parsed[1] == rgb[1] && parsed[2] == rgb[2];
    assert |parsed| == 3;
  }

  lemma HexPairValue(v: int)
    requires IsByte(v)
    ensures 16 * HexValue(HexPair(v)[0]) + HexValue(HexPair(v)[1]) == v
  {
    HexValueOfDigit(v / 16);
    HexValueOfDigit(v % 16);
  }

  /** A byte triple formats without error as '#' and its three digit pairs. */
  lemma RgbToHexOfTriple(r: int, g: int, b: int)
    requires IsByte(r) && IsByte(g) && IsByte(b)
    ensures RgbToHex([r, g, b]) == Ok("#" + HexPair(r) + HexPair(g) + HexPair(b))
  {
    var rgb := [r, g, b];
    assert rgb[0] == r && rgb[1] == g && rgb[2] == b;
  }

  /** The formatting cases of tests/test_image_tools.py: black and white. */
  lemma RgbToHexExtremes()
    ensures RgbToHex([0, 0, 0]) == Ok("#000000")
    ensures RgbToHex([255, 255, 255]) == Ok("#ffffff")
  {
    assert "#" + HexPair(0) + HexPair(0) + HexPair(0) == "#000000" by {
      assert HexPair(0) == "00";
    }
    assert "#" + HexPair(255) + HexPair(255) + HexPair(255) == "#ffffff" by {
      assert HexPair(255) == "ff";
    }
    RgbToHexOfTriple(0, 0, 0);
    RgbToHexOfTriple(255, 255, 255);
  }

  /** The formatting case of tests/test_image_tools.py with a mixed colour. */
  lemma RgbToHexMixed()
    ensures RgbToHex([25, 56, 123]) == Ok("#19387b")
  {
    assert "#" + HexPair(25) + HexPair(56) + HexPair(123) == "#19387b" by {
      assert HexPair(25) == "19";
      assert HexPair(56) == "38";
      assert HexPair(123) == "7b";
    }
    RgbToHexOfTriple(25, 56, 123);
  }

  /** The formatting case of tests/test_image_tools.py with single-digit
      channels, which are zero-padded. */
  lemma RgbToHexPadded()
    ensures RgbToHex([2, 3, 4]) == Ok("#020304")
  {
    assert "#" + HexPair(2) + HexPair(3) + HexPair(4) == "#020304" by {
      assert HexPair(2) == "02";
      assert HexPair(3) == "03";
      assert HexPair(4) == "04";
    }
    RgbToHexOfTriple(2, 3, 4);
  }

  /** `t` is a height x width x `channels` array (numpy keeps the channel
      count even when the image is empty). */
  predicate IsCuboid(t: seq<seq<seq<int>>>, channels: int)
  {
    && (forall i :: 0 <= i < |t| ==> |t[i]| == |t[0]|)
    && (forall i, j :: 0 <= i < |t| && 0 <= j < |t[i]| ==> |t[i][j]| == channels)
  }

  /** convert_rgb_tensor_to_int_tensor: rejects a last axis other than three
      channels, otherwise packs every pixel. numpy's `apply_along_axis` in
      turn refuses an image with no pixel to apply the packing to. */
  function ConvertRgbTensorToIntTensor(t: seq<seq<seq<int>>>, channels: int): (r: Result<seq<seq<int>>>)
    requires IsCuboid(t, channels)
    ensures r.Err? <==> channels != 3 || |t| == 0 || |t[0]| == 0
    ensures channels != 3 ==> r == Err(ValueError("Input tensor must be a 3D, 3 channel RGB tensor."))
    ensures r.Ok? ==>
      && |r.value| == |t|
      && (forall i :: 0 <= i < |t| ==> |r.value[i]| == |t[i]|)
      && (forall i, j :: 0 <= i < |t| && 0 <= j < |t[i]| ==>
            r.value[i][j] == t[i][j][0] + 256 * t[i][j][1] + 65536 * t[i][j][2])
  {
    if channels != 3 then
      Err(ValueError("Input tensor must be a 3D, 3 channel RGB tensor."))
    else if |t| == 0 || |t[0]| == 0 then
      Err(ValueError("Cannot apply_along_axis when any iteration dimensions are 0"))
    else
      var grid := seq(|t|, i requires 0 <= i < |t| =>
        seq(|t[i]|, j requires 0 <= j < |t[i]| => Pack(t[i][j])));
      assert forall i, j :: 0 <= i < |t| && 0 <= j < |t[i]| ==>
        grid[i][j] == t[i][j][0] + 256 * t[i][j][1] + 65536 * t[i][j][2] by {
        forall i, j | 0 <= i < |t| && 0 <= j < |t[i]|
          ensures grid[i][j] == t[i][j][0] + 256 * t[i][j][1] + 65536 * t[i][j][2]
        {
          PackTriple(t[i][j][0], t[i][j][1], t[i][j][2]);
          assert t[i][j] == [t[i][j][0], t[i][j][1], t[i][j][2]];
        }
      }
      Ok(grid)
  }

  /** The packed image of a byte-valued RGB image unpacks, pixel by pixel,
      to the original channels. */
  lemma ConvertRoundTrip(t: seq<seq<seq<int>>>)
    requires IsCuboid(t, 3)
    requires forall i, j :: 0 <= i < |t| && 0 <= j < |t[i]| ==> AllBytes(t[i][j])
    ensures var r := ConvertRgbTensorToIntTensor(t, 3);
      r.Ok? ==> forall i, j :: 0 <= i < |t| && 0 <= j < |t[i]| ==> Unpack(r.value[i][j], 3) == t[i][j]
  {
    var r := ConvertRgbTensorToIntTensor(t, 3);
    if r.Ok? {
      forall i, j | 0 <= i < |t| && 0 <= j < |t[i]|
        ensures Unpack(r.value[i][j], 3) == t[i][j]
      {
        var p := t[i][j];
        assert IsByte(p[0]) && IsByte(p[1]) && IsByte(p[2]);
        RgbRoundTrip(p[0], p[1], p[2], r.value[i][j]);
        assert p == [p[0], p[1], p[2]];
      }
    }
  }
}
