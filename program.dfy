/** The command-line driver: the atlas size clamp, the flag dispatch, the
    loop that opens one atlas per round until every image is packed, and
    the atlas records built from the packers. */
module Driver {
  import opened Util
  import opened Geometry
  import opened Bitmaps
  import opened Packing

  /** The atlas size a --size / -s value gives: the largest of 4096, 2048,
      1024 and 512 that is strictly below the value, else 256. */
  function ValidateAtlasSize(atlassize: int): (r: int)
    ensures r == 256 || r == 512 || r == 1024 || r == 2048 || r == 4096
    ensures atlassize > 256 ==> r < atlassize
    ensures atlassize <= 8192 ==> atlassize <= 2 * r
    ensures r < 4096 ==> atlassize <= 2 * r
    ensures atlassize > 4096 ==> r == 4096
    ensures atlassize <= 512 ==> r == 256
  {
    if atlassize > 4096 then 4096
    else if atlassize > 2048 then 2048
    else if atlassize > 1024 then 1024
    else if atlassize > 512 then 512
    else 256
  }

  /** One of the sizes the clamp can choose above its floor of 256. */
  predicate ListedSize(s: int)
  {
    s == 512 || s == 1024 || s == 2048 || s == 4096
  }

  /** The clamp gives the largest listed size strictly below the value, and
      256 when there is none. */
  lemma ValidateAtlasSizeLargestBelow(atlassize: int)
    ensures forall s :: ListedSize(s) && s < atlassize ==> s <= ValidateAtlasSize(atlassize)
    ensures ListedSize(ValidateAtlasSize(atlassize)) ==> ValidateAtlasSize(atlassize) < atlassize
    ensures !ListedSize(ValidateAtlasSize(atlassize)) <==> ValidateAtlasSize(atlassize) == 256
    ensures ValidateAtlasSize(atlassize) == 256 ==> atlassize <= 512
  {
  }

  /** A larger value never gives a smaller atlas. */
  lemma ValidateAtlasSizeMonotone(a: int, b: int)
    requires a <= b
    ensures ValidateAtlasSize(a) <= ValidateAtlasSize(b)
  {
  }

  /** Each size the usage text lists comes out halved (and the two smallest
      raised to 256). */
  lemma ListedSizesHalved()
    ensures ValidateAtlasSize(4096) == 2048
    ensures ValidateAtlasSize(2048) == 1024
    ensures ValidateAtlasSize(1024) == 512
    ensures ValidateAtlasSize(512) == 256
    ensures ValidateAtlasSize(256) == 256
    ensures ValidateAtlasSize(128) == 256 && ValidateAtlasSize(64) == 256
  {
  }

  /** s holds t at position i. */
  predicate Occurs(s: string, t: string, i: int)
  {
    0 <= i && i + |t| <= |s| && s[i..i + |t|] == t
  }

  /** String.Contains: t occurs somewhere in s. */
  function Contains(s: string, t: string): (r: bool)
    ensures r ==> |t| <= |s|
    decreases |s|
  {
    if |t| > |s| then false
    else s[..|t|] == t || Contains(s[1..], t)
  }

  /** Contains finds exactly the positions where t occurs. */
  lemma {:induction false} ContainsIffOccurs(s: string, t: string)
    ensures Contains(s, t) <==> exists i :: Occurs(s, t, i)
    decreases |s|
  {
    if |t| > |s| {
      if i :| Occurs(s, t, i) {
        assert false;
      }
    } else if s[..|t|] == t {
      assert Occurs(s, t, 0);
    } else {
      ContainsIffOccurs(s[1..], t);
      if Contains(s[1..], t) {
        var i :| Occurs(s[1..], t, i);
        assert s[1..][i..i + |t|] == s[i + 1..i + 1 + |t|];
        assert Occurs(s, t, i + 1);
      }
      if i :| Occurs(s, t, i) {
        assert i != 0;
        assert s[1..][i - 1..i - 1 + |t|] == s[i..i + |t|];
        assert Occurs(s[1..], t, i - 1);
      }
    }
  }

  /** A string without one of t's characters does not contain t. */
  lemma MissingCharNotContained(s: string, t: string, k: int)
    requires 0 <= k < |t| && t[k] !in s
    ensures !Contains(s, t)
  {
    ContainsIffOccurs(s, t);
    if i :| Occurs(s, t, i) {
      assert false;
    }
  }

  /** The settings the flags set. */
  datatype Options = Options(
    atlasSize: int,
    pad: int,
    xml: bool,
    binary: bool,
    json: bool,
    premultiply: bool,
    trim: bool,
    verbose: bool,
    force: bool,
    unique: bool,
    rotate: bool)

  /** Size 4096, padding 1, every switch off. */
  const Defaults := Options(4096, 1, false, false, false, false, false, false, false, false, false)

  /** The flags matched as whole arguments. */
  predicate ExactFlag(arg: string)
  {
    arg in {"-d", "--default", "-x", "--xml", "-b", "--binary", "-j", "--json", "-p", "--premultiply",
            "-t", "--trim", "-v", "--verbose", "-f", "--force", "-u", "--unique", "-r", "--rotate"}
  }

  /** An argument that reaches the number flags. */
  predicate NumberArg(arg: string)
  {
    && !ExactFlag(arg)
    && (Contains(arg, "--size") || Contains(arg, "-s") || Contains(arg, "--pad") || Contains(arg, "-p"))
  }

  /** One argument of the flag loop: the whole-argument flags first, then
      the number flags --size, -s, --pad and -p, each found anywhere in the
      argument and read from a fixed offset after its start; anything else
      is reported and skipped.  parse is int.Parse, None where it throws. */
  function ApplyArg(o: Options, arg: string, parse: string -> Option<int>): (r: Option<Options>)
    ensures r == None ==> NumberArg(arg)
    ensures !NumberArg(arg) ==> r != None && r.value.atlasSize == o.atlasSize && r.value.pad == o.pad
  {
    if ExactFlag(arg) then Some(ApplySwitch(o, arg)) else ApplyNumberFlag(o, arg, parse)
  }

  /** The whole-argument flags, each setting its switches. */
  function ApplySwitch(o: Options, arg: string): (r: Options)
    requires ExactFlag(arg)
    ensures r.atlasSize == o.atlasSize && r.pad == o.pad
  {
    if arg == "-d" || arg == "--default" then o.(xml := true, premultiply := true, trim := true, unique := true)
    else if arg == "-x" || arg == "--xml" then o.(xml := true)
    else if arg == "-b" || arg == "--binary" then o.(binary := true)
    else if arg == "-j" || arg == "--json" then o.(json := true)
    else if arg == "-p" || arg == "--premultiply" then o.(premultiply := true)
    else if arg == "-t" || arg == "--trim" then o.(trim := true)
    else if arg == "-v" || arg == "--verbose" then o.(verbose := true)
    else if arg == "-f" || arg == "--force" then o.(force := true)
    else if arg == "-u" || arg == "--unique" then o.(unique := true)
    else o.(rotate := true)
  }

  /** The number flags, tried in order on an argument that is no
      whole-argument flag; an argument holding none of them is skipped. */
  function ApplyNumberFlag(o: Options, arg: string, parse: string -> Option<int>): (r: Option<Options>)
    ensures r == None ==> Contains(arg, "--size") || Contains(arg, "-s") || Contains(arg, "--pad") || Contains(arg, "-p")
    ensures !(Contains(arg, "--size") || Contains(arg, "-s") || Contains(arg, "--pad") || Contains(arg, "-p")) ==> r == Some(o)
  {
    if Contains(arg, "--size") then
      (match parse(arg[6..]) case None => None case Some(n) => Some(o.(atlasSize := ValidateAtlasSize(n))))
    else if Contains(arg, "-s") then
      (match parse(arg[2..]) case None => None case Some(n) => Some(o.(atlasSize := ValidateAtlasSize(n))))
    else if Contains(arg, "--pad") then
      (match parse(arg[5..]) case None => None case Some(n) => Some(o.(pad := n)))
    else if Contains(arg, "-p") then
      (match parse(arg[2..]) case None => None case Some(n) => Some(o.(pad := n)))
    else Some(o)
  }

  /** Whole-argument flags come first: "-p" turns on premultiplication and
      never reaches the padding flag, "-d" sets four switches, and neither
      reads a number. */
  lemma ExactFlagsFirst(o: Options, parse: string -> Option<int>)
    ensures ApplyArg(o, "-p", parse) == Some(o.(premultiply := true))
    ensures ApplyArg(o, "--premultiply", parse) == Some(o.(premultiply := true))
    ensures ApplyArg(o, "-d", parse) == Some(o.(xml := true, premultiply := true, trim := true, unique := true))
  {
  }

  /** "-p8" is the padding flag with value 8. */
  lemma ShortPadFlag(o: Options, parse: string -> Option<int>)
    requires parse("8") == Some(8)
    ensures ApplyArg(o, "-p8", parse) == Some(o.(pad := 8))
  {
    MissingCharNotContained("-p8", "--size", 2);
    MissingCharNotContained("-p8", "-s", 1);
    MissingCharNotContained("-p8", "--pad", 3);
    assert "-p8"[..2] == "-p";
    assert "-p8"[2..] == "8";
  }

  /** "--pad3" reads its number after "--pad", before the shorter "-p"
      that it also holds is tried. */
  lemma LongPadFlag(o: Options, parse: string -> Option<int>)
    requires parse("3") == Some(3)
    ensures ApplyArg(o, "--pad3", parse) == Some(o.(pad := 3))
  {
    MissingCharNotContained("--pad3", "--size", 2);
    MissingCharNotContained("--pad3", "-s", 1);
    assert "--pad3"[..5] == "--pad";
    assert "--pad3"[5..] == "3";
  }

  /** "-s4096" asks for 4096 and gets 2048. */
  lemma ShortSizeFlag(o: Options, parse: string -> Option<int>)
    requires parse("4096") == Some(4096)
    ensures ApplyArg(o, "-s4096", parse) == Some(o.(atlasSize := 2048))
  {
    MissingCharNotContained("-s4096", "--size", 4);
    assert "-s4096"[..2] == "-s";
    assert "-s4096"[2..] == "4096";
  }

  /** "--size1024", which also holds "-s", reads its number after "--size"
      and gets 512. */
  lemma LongSizeFlag(o: Options, parse: string -> Option<int>)
    requires parse("1024") == Some(1024)
    ensures ApplyArg(o, "--size1024", parse) == Some(o.(atlasSize := 512))
  {
    assert "--size1024"[..6] == "--size";
    assert "--size1024"[6..] == "1024";
  }

  /** What the flag loop ends with. */
  datatype Parsed = Usage | Settings(opts: Options) | BadNumber(arg: string)

  /** The flag loop over args from o on: stop at the first number that does
      not parse. */
  function Fold(o: Options, args: seq<string>, parse: string -> Option<int>): Parsed
    decreases |args|
  {
    if args == [] then Settings(o)
    else match ApplyArg(o, args[0], parse)
      case None => BadNumber(args[0])
      case Some(o') => Fold(o', args[1..], parse)
  }

  /** Without a number argument the loop cannot fail and keeps the size and
      the padding. */
  lemma {:induction false} NoNumberKeepsSizeAndPad(o: Options, args: seq<string>, parse: string -> Option<int>)
    requires forall i :: 0 <= i < |args| ==> !NumberArg(args[i])
    ensures Fold(o, args, parse).Settings?
    ensures Fold(o, args, parse).opts.atlasSize == o.atlasSize
    ensures Fold(o, args, parse).opts.pad == o.pad
    decreases |args|
  {
    if args != [] {
      var o' := ApplyArg(o, args[0], parse).value;
      NoNumberKeepsSizeAndPad(o', args[1..], parse);
    }
  }

  /** The argument handling of Main: fewer than four arguments print the
      usage and read nothing; otherwise the flags from the third argument
      on are applied in order, starting from the defaults.  The first two
      arguments (output path and input folders) are file-system names. */
  method ParseArgs(args: seq<string>, parse: string -> Option<int>) returns (r: Parsed)
    ensures |args| < 4 ==> r == Usage
    ensures |args| >= 4 ==> r == Fold(Defaults, args[2..], parse)
  {
    if |args| < 4 {
      return Usage;
    }
    var opts := Defaults;
    var i := 2;
    while i < |args|
      invariant 2 <= i <= |args|
      invariant Fold(opts, args[i..], parse) == Fold(Defaults, args[2..], parse)
    {
      assert args[i..][1..] == args[i + 1..];
      var next := ApplyArg(opts, args[i], parse);
      if next == None {
        return BadNumber(args[i]);
      }
      opts := next.value;
      i := i + 1;
    }
    return Settings(opts);
  }

  /** With only switches after the two names, the atlas size stays 4096
      and the padding 1. */
  lemma SwitchesKeepDefaults(args: seq<string>, parse: string -> Option<int>)
    requires |args| >= 4
    requires forall i :: 2 <= i < |args| ==> !NumberArg(args[i])
    ensures Fold(Defaults, args[2..], parse).Settings?
    ensures Fold(Defaults, args[2..], parse).opts.atlasSize == 4096
    ensures Fold(Defaults, args[2..], parse).opts.pad == 1
  {
    NoNumberKeepsSizeAndPad(Defaults, args[2..], parse);
  }

  /** The input as the packers took it: each packer's images were taken
      from the tail, so the input is the packers' lists reversed, the last
      packer's first. */
  function Stacked(bins: seq<seq<PackerBitmap>>): seq<PackerBitmap>
    decreases |bins|
  {
    if bins == [] then []
    else Reversed(bins[|bins| - 1]) + Stacked(bins[..|bins| - 1])
  }

  /** Halving never grows a size that is not negative. */
  lemma {:induction false} HalvedAtMost(n: int, k: nat)
    requires n >= 0
    ensures 0 <= Halved(n, k) <= n
  {
    if k > 0 {
      HalvedAtMost(n, k - 1);
    }
  }

  /** One round of the bin loop: a fresh size x size packer with the
      padding packs from left, keeping bin; rest is what it leaves. */
  method OpenBin(left: seq<PackerBitmap>, size: int, pad: int, unique: bool, rotate: bool,
                 insert: Inserter, hash: PackerBitmap -> int)
    returns (packer: Packer, rest: seq<PackerBitmap>, ghost bin: seq<PackerBitmap>)
    requires size >= 0
    ensures fresh(packer)
    ensures packer.Valid() && packer.Bitmaps == bin && packer.Pad == pad
    ensures 0 <= packer.Width <= size && 0 <= packer.Height <= size
    ensures left == rest + Reversed(bin)
  {
    packer := new Packer(size, size, pad);
    ghost var ww, hh, rects, placed;
    rest, ww, hh, rects, placed := packer.PackFixed(left, unique, rotate, insert, hash);
    assert packer.Bitmaps[0..] == packer.Bitmaps;
    bin := packer.Bitmaps;
    if ww > 0 && hh > 0 {
      var kw: nat, kh: nat :| ShrunkTo(size, ww, packer.Width, kw) && ShrunkTo(size, hh, packer.Height, kh);
      HalvedAtMost(size, kw);
      HalvedAtMost(size, kh);
    }
  }

  /** Every packer of packers is well formed, holds the images of the bin
      at its index, has the padding pad and a size within size x size. */
  ghost predicate Packed(packers: seq<Packer>, bins: seq<seq<PackerBitmap>>, pad: int, size: int)
    reads packers
  {
    && |bins| == |packers|
    && forall i :: 0 <= i < |packers| ==>
         && packers[i].Valid() && packers[i].Bitmaps == bins[i] && packers[i].Pad == pad
         && 0 <= packers[i].Width <= size && 0 <= packers[i].Height <= size
  }

  /** When every bin so far is non-empty, every bin but the one pushed
      last is. */
  lemma FrontNonEmptyPush(bins: seq<seq<PackerBitmap>>, bin: seq<PackerBitmap>)
    requires forall i :: 0 <= i < |bins| ==> bins[i] != []
    ensures forall i :: 0 <= i < |bins + [bin]| - 1 ==> (bins + [bin])[i] != []
  {
    forall i | 0 <= i < |bins + [bin]| - 1
      ensures (bins + [bin])[i] != []
    {
      assert (bins + [bin])[i] == bins[i];
    }
  }

  /** Keeping one more packer with its bin keeps Packed. */
  lemma PackedPush(packers: seq<Packer>, bins: seq<seq<PackerBitmap>>, pad: int, size: int,
                   packer: Packer, bin: seq<PackerBitmap>)
    requires Packed(packers, bins, pad, size)
    requires packer.Valid() && packer.Bitmaps == bin && packer.Pad == pad
    requires 0 <= packer.Width <= size && 0 <= packer.Height <= size
    ensures Packed(packers + [packer], bins + [bin], pad, size)
  {
  }

  /** The input is what is left followed by the bins, the last bin's
      images first. */
  lemma StackedPush(bitmaps: seq<PackerBitmap>, left: seq<PackerBitmap>, rest: seq<PackerBitmap>,
                    bins: seq<seq<PackerBitmap>>, bin: seq<PackerBitmap>)
    requires bitmaps == left + Stacked(bins) && left == rest + Reversed(bin)
    ensures bitmaps == rest + Stacked(bins + [bin])
  {
    assert (bins + [bin])[..|bins|] == bins;
  }

  /** OpenBin inside the bin loop: the packers and bins so far, with the
      new packer and its bin pushed, keep what the loop maintains. */
  method NextBin(bitmaps: seq<PackerBitmap>, left: seq<PackerBitmap>, ghost packers: seq<Packer>,
                 ghost bins: seq<seq<PackerBitmap>>, size: int, pad: int, unique: bool, rotate: bool,
                 insert: Inserter, hash: PackerBitmap -> int)
    returns (packer: Packer, rest: seq<PackerBitmap>, ghost bin: seq<PackerBitmap>)
    requires size >= 0
    requires forall i, j :: 0 <= i < j < |packers| ==> packers[i] != packers[j]
    requires Packed(packers, bins, pad, size)
    requires bitmaps == left + Stacked(bins)
    requires forall i :: 0 <= i < |bins| ==> bins[i] != []
    ensures fresh(packer) && packer.Bitmaps == bin
    ensures forall i, j :: 0 <= i < j < |packers + [packer]| ==> (packers + [packer])[i] != (packers + [packer])[j]
    ensures Packed(packers + [packer], bins + [bin], pad, size)
    ensures bitmaps == rest + Stacked(bins + [bin])
    ensures bin == [] ==> rest == left
    ensures forall i :: 0 <= i < |bins + [bin]| - 1 ==> (bins + [bin])[i] != []
  {
    packer, rest, bin := OpenBin(left, size, pad, unique, rotate, insert, hash);
    StackedPush(bitmaps, left, rest, bins, bin);
    PackedPush(packers, bins, pad, size, packer, bin);
    FrontNonEmptyPush(bins, bin);
  }

  /** The bin loop of Main: while images remain, open a size x size packer
      with the padding, pack, and keep it; stop (aborted) when a packer
      placed nothing.  Each round packs with PackFixed, which skips the
      shrink when nothing was placed, so that this stop can be reached.
      bins[i] is what packer i holds and rest what is left. */
  method PackBins(bitmaps: seq<PackerBitmap>, size: int, pad: int, unique: bool, rotate: bool,
                  insert: Inserter, hash: PackerBitmap -> int)
    returns (packers: seq<Packer>, aborted: bool, ghost bins: seq<seq<PackerBitmap>>, ghost rest: seq<PackerBitmap>)
    requires size >= 0
    ensures |bins| == |packers|
    ensures forall i, j :: 0 <= i < j < |packers| ==> packers[i] != packers[j]
    ensures Packed(packers, bins, pad, size)
    ensures bitmaps == rest + Stacked(bins)
    ensures !aborted ==> rest == []
    ensures aborted ==> |bins| > 0 && bins[|bins| - 1] == [] && rest != []
    ensures forall i :: 0 <= i < |bins| - 1 ==> bins[i] != []
    ensures !aborted && |bins| > 0 ==> bins[|bins| - 1] != []
  {
    packers := [];
    bins := [];
    aborted := false;
    var left := bitmaps;
    while left != [] && !aborted
      invariant |bins| == |packers|
      invariant forall i, j :: 0 <= i < j < |packers| ==> packers[i] != packers[j]
      invariant Packed(packers, bins, pad, size)
      invariant bitmaps == left + Stacked(bins)
      invariant forall i :: 0 <= i < |bins| - 1 ==> bins[i] != []
      invariant !aborted && |bins| > 0 ==> bins[|bins| - 1] != []
      invariant aborted ==> |bins| > 0 && bins[|bins| - 1] == [] && left != []
      decreases |left|, !aborted
    {
      var packer, left', bin := NextBin(bitmaps, left, packers, bins, size, pad, unique, rotate, insert, hash);
      packers := packers + [packer];
      bins := bins + [bin];
      left := left';
      if |packer.Bitmaps| <= 0 {
        aborted := true;
      }
    }
    rest := left;
  }

  /** An image entry of the atlas data. */
  datatype AtlasImage = AtlasImage(
    Name: string,
    X: int,
    Y: int,
    Width: int,
    Height: int,
    FrameX: int,
    FrameY: int,
    FrameW: int,
    FrameH: int)

  /** The atlas data of one packer. */
  datatype Atlas = Atlas(
    Name: string,
    Width: int,
    Height: int,
    Images: seq<AtlasImage>,
    IsRotated: bool,
    IsTrimmed: bool,
    IsPremultiplied: bool)

  function DigitChar(d: int): char
    requires 0 <= d < 10
  {
    "0123456789"[d]
  }

  /** s is made of decimal digits. */
  predicate Digits(s: string)
  {
    forall k :: 0 <= k < |s| ==> '0' <= s[k] <= '9'
  }

  /** Int32.ToString of a number that is not negative. */
  function NatToString(n: nat): (s: string)
    ensures |s| >= 1 && Digits(s)
    decreases n
  {
    if n < 10 then [DigitChar(n)] else NatToString(n / 10) + [DigitChar(n % 10)]
  }

  /** The number a string of digits spells. */
  function ParseNat(s: string): nat
    requires Digits(s)
    decreases |s|
  {
    if s == [] then 0 else ParseNat(s[..|s| - 1]) * 10 + (s[|s| - 1] - '0') as nat
  }

  /** Reading back a written number gives the number. */
  lemma {:induction false} ParseNatToString(n: nat)
    ensures ParseNat(NatToString(n)) == n
    decreases n
  {
    if n >= 10 {
      var s := NatToString(n);
      assert s[..|s| - 1] == NatToString(n / 10);
      ParseNatToString(n / 10);
    }
  }

  /** Name of atlas i. */
  function AtlasName(name: string, i: nat): string
  {
    name + NatToString(i) + ".png"
  }

  /** Different atlases get different names. */
  lemma AtlasNamesDistinct(name: string, i: nat, j: nat)
    requires i != j
    ensures AtlasName(name, i) != AtlasName(name, j)
  {
    if AtlasName(name, i) == AtlasName(name, j) {
      var a, b := NatToString(i), NatToString(j);
      assert |a| == |b|;
      assert a == AtlasName(name, i)[|name|..|name| + |a|];
      assert b == AtlasName(name, j)[|name|..|name| + |b|];
      ParseNatToString(i);
      ParseNatToString(j);
      assert false;
    }
  }

  /** The record of entry t: its position from the point, its size and
      frame from the image as kept, whatever the turn. */
  function ImageOf(bmp: PackerBitmap, p: Point): AtlasImage
  {
    AtlasImage(bmp.Name, p.x, p.y, bmp.Width, bmp.Height, bmp.FrameX, bmp.FrameY, bmp.FrameW, bmp.FrameH)
  }

  /** The turn of an entry is not recorded: a turned entry has the same
      record as the same entry unturned, the unturned width and height. */
  lemma TurnNotRecorded(bmp: PackerBitmap, p: Point)
    ensures ImageOf(bmp, p) == ImageOf(bmp, p.(rot := !p.rot))
    ensures ImageOf(bmp, p).Width == bmp.Width && ImageOf(bmp, p).Height == bmp.Height
  {
  }

  /** One record per entry of bs, at the matching point of ps. */
  function ImagesOf(bs: seq<PackerBitmap>, ps: seq<Point>): (r: seq<AtlasImage>)
    requires |bs| <= |ps|
    ensures |r| == |bs|
    ensures forall t :: 0 <= t < |bs| ==> r[t] == ImageOf(bs[t], ps[t])
    decreases |bs|
  {
    if bs == [] then [] else ImagesOf(bs[..|bs| - 1], ps) + [ImageOf(bs[|bs| - 1], ps[|bs| - 1])]
  }

  /** The atlas record of packer p, the i-th. */
  function AtlasOf(name: string, i: nat, p: Packer, rotate: bool, trim: bool, premultiply: bool): (a: Atlas)
    reads p
    requires |p.Bitmaps| <= |p.Points|
    ensures |a.Images| == |p.Bitmaps|
    ensures forall t :: 0 <= t < |a.Images| ==> a.Images[t] == ImageOf(p.Bitmaps[t], p.Points[t])
  {
    Atlas(AtlasName(name, i), p.Width, p.Height, ImagesOf(p.Bitmaps, p.Points), rotate, trim, premultiply)
  }

  /** The record loop of Main: one atlas per packer, in order, with one
      image record per entry. */
  method BuildAtlases(name: string, packers: seq<Packer>, rotate: bool, trim: bool, premultiply: bool)
    returns (atlases: seq<Atlas>)
    requires forall i :: 0 <= i < |packers| ==> |packers[i].Bitmaps| <= |packers[i].Points|
    ensures |atlases| == |packers|
    ensures forall i :: 0 <= i < |packers| ==> atlases[i] == AtlasOf(name, i, packers[i], rotate, trim, premultiply)
  {
    atlases := [];
    var i := 0;
    while i < |packers|
      invariant 0 <= i <= |packers| && |atlases| == i
      invariant forall k :: 0 <= k < i ==> atlases[k] == AtlasOf(name, k, packers[k], rotate, trim, premultiply)
    {
      var p := packers[i];
      var images: seq<AtlasImage> := [];
      var t := 0;
      while t < |p.Bitmaps|
        invariant 0 <= t <= |p.Bitmaps| && |images| == t
        invariant forall u :: 0 <= u < t ==> images[u] == ImageOf(p.Bitmaps[u], p.Points[u])
      {
        var bmp := p.Bitmaps[t];
        images := images + [AtlasImage(bmp.Name, p.Points[t].x, p.Points[t].y, bmp.Width, bmp.Height,
                                       bmp.FrameX, bmp.FrameY, bmp.FrameW, bmp.FrameH)];
        t := t + 1;
      }
      var atlas := Atlas(name + NatToString(i) + ".png", p.Width, p.Height, images, rotate, trim, premultiply);
      assert atlas == AtlasOf(name, i, p, rotate, trim, premultiply);
      atlases := atlases + [atlas];
      i := i + 1;
    }
  }
}
