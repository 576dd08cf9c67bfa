/** The atlas packer: it takes images from the tail of a list, skips
    duplicates, asks the rectangle packer for a place for each one, shrinks
    the atlas to the used extent, and draws the placed images into the
    atlas pixels. */
module Packing {
  import opened Util
  import opened Geometry
  import opened Bitmaps

  /** Where an entry of the atlas sits: its corner, the index of the entry it
      repeats (-1 for an entry that is drawn itself), and whether it was
      turned a quarter. */
  datatype Point = Point(x: int, y: int, dupID: int, rot: bool)

  /** The rectangle packer the atlas packer uses, after the successful
      requests `placed`, asked for a width x height rectangle in a
      binWidth x binHeight bin, turning allowed or not, under the
      best-short-side-fit rule: (binWidth, binHeight, placed, width, height,
      rotate) -> the place.  Its only promise used here: a zero width or
      height means that there is no room. */
  type Inserter = (int, int, seq<RectSize>, int, int, bool) -> BinRect

  /** What one packing round works with: the bin size, the padding, the
      dedup and rotation switches, the rectangle packer and the dedup key
      of an image. */
  datatype Job = Job(
    binW: int,
    binH: int,
    pad: int,
    unique: bool,
    rotate: bool,
    insert: Inserter,
    hash: PackerBitmap -> int)

  predicate Failed(r: BinRect)
  {
    r.width == 0 || r.height == 0
  }

  /** The padded size asked for bmp. */
  function Request(bmp: PackerBitmap, pad: int): RectSize
  {
    RectSize(bmp.Width + pad, bmp.Height + pad)
  }

  /** The rectangle packer's answer for bmp after the requests `placed`. */
  function Attempt(job: Job, placed: seq<RectSize>, bmp: PackerBitmap): BinRect
  {
    job.insert(job.binW, job.binH, placed, bmp.Width + job.pad, bmp.Height + job.pad, job.rotate)
  }

  /** bmp is a repeat of an image already in the atlas. */
  predicate IsRepeat(job: Job, dups: map<int, int>, bmp: PackerBitmap)
  {
    job.unique && job.hash(bmp) in dups
  }

  function Max(a: int, b: int): (m: int)
    ensures m >= a && m >= b && (m == a || m == b)
  {
    if a >= b then a else b
  }

  /** The used extent the placement loop ends with, from the images still
      to take (from the tail), the dedup keys, the requests granted so far
      and the extent so far. */
  ghost function Extent(rest: seq<PackerBitmap>, keys: set<int>, placed: seq<RectSize>, ww: int, hh: int, job: Job): (int, int)
    decreases |rest|
  {
    if rest == [] then (ww, hh)
    else
      var bmp := rest[|rest| - 1];
      var front := rest[..|rest| - 1];
      if job.unique && job.hash(bmp) in keys then Extent(front, keys, placed, ww, hh, job)
      else
        var r := Attempt(job, placed, bmp);
        if Failed(r) then (ww, hh)
        else Extent(front, if job.unique then keys + {job.hash(bmp)} else keys, placed + [Request(bmp, job.pad)],
                    Max(r.x + r.width, ww), Max(r.y + r.height, hh), job)
  }

  /** The extent only grows. */
  lemma {:induction false} ExtentGrows(rest: seq<PackerBitmap>, keys: set<int>, placed: seq<RectSize>, ww: int, hh: int, job: Job)
    ensures Extent(rest, keys, placed, ww, hh, job).0 >= ww
    ensures Extent(rest, keys, placed, ww, hh, job).1 >= hh
    decreases |rest|
  {
    if rest != [] {
      var bmp := rest[|rest| - 1];
      var front := rest[..|rest| - 1];
      if job.unique && job.hash(bmp) in keys {
        ExtentGrows(front, keys, placed, ww, hh, job);
      } else {
        var r := Attempt(job, placed, bmp);
        if !Failed(r) {
          ExtentGrows(front, if job.unique then keys + {job.hash(bmp)} else keys, placed + [Request(bmp, job.pad)],
                      Max(r.x + r.width, ww), Max(r.y + r.height, hh), job);
        }
      }
    }
  }

  /** The requests granted for the entries bs/ps: the padded sizes of the
      entries that are not repeats, in order. */
  function Requests(bs: seq<PackerBitmap>, ps: seq<Point>, pad: int): (r: seq<RectSize>)
    requires |bs| == |ps|
    ensures |r| <= |bs|
    decreases |bs|
  {
    if bs == [] then []
    else Requests(bs[..|bs| - 1], ps[..|ps| - 1], pad) + (if ps[|ps| - 1].dupID == -1 then [Request(bs[|bs| - 1], pad)] else [])
  }

  /** Appending an entry appends its request when it is not a repeat. */
  lemma RequestsAppend(bs: seq<PackerBitmap>, ps: seq<Point>, o: int, b: PackerBitmap, p: Point, pad: int)
    requires |bs| == |ps| && 0 <= o <= |bs|
    ensures Requests((bs + [b])[o..], (ps + [p])[o..], pad)
         == Requests(bs[o..], ps[o..], pad) + (if p.dupID == -1 then [Request(b, pad)] else [])
  {
    assert (bs + [b])[o..] == bs[o..] + [b];
    assert (ps + [p])[o..] == ps[o..] + [p];
    assert (bs[o..] + [b])[..|bs| - o] == bs[o..];
    assert (ps[o..] + [p])[..|ps| - o] == ps[o..];
  }

  /** Entry k (image bmp at pt) was made by the placement loop: a repeat
      points at the original the dedup table holds for its key; any other
      entry sits where the rectangle packer put it (given the requests
      granted before it), inside the used extent, turned exactly when
      turning is on and its width does not match, and its key names it. */
  ghost predicate EntryOK(job: Job, bmp: PackerBitmap, pt: Point, rect: BinRect, before: seq<RectSize>,
                          dups: map<int, int>, k: int, ww: int, hh: int)
  {
    if pt.dupID == -1 then
      && rect == Attempt(job, before, bmp)
      && !Failed(rect)
      && pt == Point(rect.x, rect.y, -1, job.rotate && bmp.Width != rect.width - job.pad)
      && rect.x + rect.width <= ww && rect.y + rect.height <= hh
      && (job.unique ==> job.hash(bmp) in dups && dups[job.hash(bmp)] == k)
    else
      job.unique && job.hash(bmp) in dups && dups[job.hash(bmp)] == pt.dupID
  }

  /** Every entry from index o on was made by the placement loop; rects
      holds the places the rectangle packer gave. */
  ghost predicate Entries(bs: seq<PackerBitmap>, ps: seq<Point>, o: int, rects: seq<BinRect>,
                          dups: map<int, int>, ww: int, hh: int, job: Job)
    requires |bs| == |ps| == o + |rects| && 0 <= o
  {
    forall j :: 0 <= j < |rects| ==>
      EntryOK(job, bs[o + j], ps[o + j], rects[j], Requests(bs[o..o + j], ps[o..o + j], job.pad), dups, o + j, ww, hh)
  }

  /** Dictionary b holds every key of a with the same value. */
  ghost predicate Grows(a: map<int, int>, b: map<int, int>)
  {
    forall h :: h in a ==> h in b && b[h] == a[h]
  }

  lemma GrowsKeeps(a: map<int, int>, b: map<int, int>, h: int)
    requires Grows(a, b)
    ensures h in a ==> h in b && b[h] == a[h]
  {
  }

  /** A key of the dedup table names an entry that is not a repeat. */
  lemma LookupInRange(bs: seq<PackerBitmap>, ps: seq<Point>, dups: map<int, int>, h: int)
    requires ValidState(bs, ps, dups) && h in dups
    ensures 0 <= dups[h] < |ps| && ps[dups[h]].dupID == -1
  {
  }

  lemma EntryOKMono(job: Job, bmp: PackerBitmap, pt: Point, rect: BinRect, before: seq<RectSize>,
                    dups: map<int, int>, dups': map<int, int>, k: int, ww: int, hh: int, ww': int, hh': int)
    requires EntryOK(job, bmp, pt, rect, before, dups, k, ww, hh)
    requires Grows(dups, dups') && ww <= ww' && hh <= hh'
    ensures EntryOK(job, bmp, pt, rect, before, dups', k, ww', hh')
  {
    var h := job.hash(bmp);
    if h in dups {
      assert h in dups' && dups'[h] == dups[h];
    }
  }

  /** Appending one entry made by the loop keeps Entries. */
  lemma EntriesAppend(bs: seq<PackerBitmap>, ps: seq<Point>, o: int, rects: seq<BinRect>,
                      dups: map<int, int>, ww: int, hh: int, job: Job,
                      b: PackerBitmap, p: Point, r: BinRect, dups': map<int, int>, ww': int, hh': int)
    requires |bs| == |ps| == o + |rects| && 0 <= o
    requires Entries(bs, ps, o, rects, dups, ww, hh, job)
    requires Grows(dups, dups') && ww <= ww' && hh <= hh'
    requires EntryOK(job, b, p, r, Requests(bs[o..], ps[o..], job.pad), dups', |bs|, ww', hh')
    ensures Entries(bs + [b], ps + [p], o, rects + [r], dups', ww', hh', job)
  {
    var bs', ps', rects' := bs + [b], ps + [p], rects + [r];
    forall j | 0 <= j < |rects'|
      ensures EntryOK(job, bs'[o + j], ps'[o + j], rects'[j], Requests(bs'[o..o + j], ps'[o..o + j], job.pad), dups', o + j, ww', hh')
    {
      assert bs'[o..o + j] == bs[o..o + j] && ps'[o..o + j] == ps[o..o + j];
      if j < |rects| {
        EntryOKMono(job, bs[o + j], ps[o + j], rects[j], Requests(bs[o..o + j], ps[o..o + j], job.pad),
                    dups, dups', o + j, ww, hh, ww', hh');
      }
    }
  }

  /** The round ended on bmp: it is not a repeat and there was no room for
      it. */
  ghost predicate Stopped(job: Job, bmp: PackerBitmap, dups: map<int, int>, placed: seq<RectSize>)
  {
    !IsRepeat(job, dups, bmp) && Failed(Attempt(job, placed, bmp))
  }

  /** The entries bs/ps with dedup table dups: Bitmaps and Points run in
      parallel; every dedup entry names an entry that is not a repeat;
      every repeat is a copy of an earlier such entry, with dupID naming
      it. */
  ghost predicate ValidState(bs: seq<PackerBitmap>, ps: seq<Point>, dups: map<int, int>)
  {
    && |bs| == |ps|
    && (forall h :: h in dups ==> 0 <= dups[h] < |ps| && ps[dups[h]].dupID == -1)
    && (forall k :: 0 <= k < |ps| && ps[k].dupID != -1 ==> 0 <= ps[k].dupID < k && ps[ps[k].dupID] == ps[k].(dupID := -1))
  }

  /** Key h was in the dedup table before entry k was made: it was there
      before the loop, or an entry from o up to k that is not a repeat has
      it. */
  ghost predicate KeySeen(job: Job, oldDups: map<int, int>, bs: seq<PackerBitmap>, ps: seq<Point>, o: int, k: int, h: int)
    requires 0 <= o <= k <= |bs| == |ps|
  {
    h in oldDups || exists j :: o <= j < k && ps[j].dupID == -1 && job.hash(bs[j]) == h
  }

  /** Every key of the dedup table was there before the loop or is the key
      of an entry from o on that is not a repeat. */
  ghost predicate KeysKnown(job: Job, oldDups: map<int, int>, bs: seq<PackerBitmap>, ps: seq<Point>, o: int, dups: map<int, int>)
    requires 0 <= o <= |bs| == |ps|
  {
    forall h :: h in dups ==> KeySeen(job, oldDups, bs, ps, o, |bs|, h)
  }

  /** Appending an entry keeps KeysKnown when the only key added is that of
      the new entry, which is then not a repeat. */
  lemma KeysKnownAppend(job: Job, oldDups: map<int, int>, bs: seq<PackerBitmap>, ps: seq<Point>, o: int,
                        dups: map<int, int>, b: PackerBitmap, p: Point, dups': map<int, int>)
    requires 0 <= o <= |bs| == |ps| && KeysKnown(job, oldDups, bs, ps, o, dups)
    requires forall h :: h in dups' ==> h in dups || (p.dupID == -1 && h == job.hash(b))
    ensures KeysKnown(job, oldDups, bs + [b], ps + [p], o, dups')
  {
    var bs', ps' := bs + [b], ps + [p];
    forall h | h in dups'
      ensures KeySeen(job, oldDups, bs', ps', o, |bs'|, h)
    {
      if h in dups {
        if h !in oldDups {
          var j :| o <= j < |bs| && ps[j].dupID == -1 && job.hash(bs[j]) == h;
          assert ps'[j] == ps[j] && bs'[j] == bs[j];
        }
      } else {
        assert ps'[|bs|] == p && bs'[|bs|] == b;
      }
    }
  }

  /** The placement loop part way, from the state before it (oldB, oldP,
      oldDups) to the current one (bs, ps, dups): the old entries are kept;
      the dedup table only gains the keys of new entries that are not
      repeats;
      the new ones are the input's tail in reverse order, each made by the
      loop; rest is what is left of the input; granted lists the requests
      granted; and the extent the loop will end with is the one it ends
      with from the start. */
  ghost predicate Progress(job: Job, oldB: seq<PackerBitmap>, oldP: seq<Point>, oldDups: map<int, int>,
                           input: seq<PackerBitmap>, bs: seq<PackerBitmap>, ps: seq<Point>, dups: map<int, int>,
                           rest: seq<PackerBitmap>, rects: seq<BinRect>, granted: seq<RectSize>, ww: int, hh: int)
  {
    && |oldB| == |oldP|
    && |bs| == |ps| == |oldB| + |rects|
    && bs[..|oldB|] == oldB && ps[..|oldP|] == oldP
    && Grows(oldDups, dups)
    && KeysKnown(job, oldDups, bs, ps, |oldB|, dups)
    && input == rest + Reversed(bs[|oldB|..])
    && granted == Requests(bs[|oldB|..], ps[|oldB|..], job.pad)
    && Entries(bs, ps, |oldB|, rects, dups, ww, hh, job)
    && 0 <= ww && 0 <= hh
    && Extent(rest, dups.Keys, granted, ww, hh, job) == Extent(input, oldDups.Keys, [], 0, 0, job)
  }

  /** What the placement loop leaves: its progress, and when input is left
      the round stopped on its last image; (ww, hh) is the used extent. */
  ghost predicate Placement(job: Job, oldB: seq<PackerBitmap>, oldP: seq<Point>, oldDups: map<int, int>,
                            input: seq<PackerBitmap>, bs: seq<PackerBitmap>, ps: seq<Point>, dups: map<int, int>,
                            rest: seq<PackerBitmap>, rects: seq<BinRect>, placed: seq<RectSize>, ww: int, hh: int)
  {
    && Progress(job, oldB, oldP, oldDups, input, bs, ps, dups, rest, rects, placed, ww, hh)
    && (rest != [] ==> Stopped(job, rest[|rest| - 1], dups, placed))
    && (ww, hh) == Extent(input, oldDups.Keys, [], 0, 0, job)
  }

  lemma ProgressStart(job: Job, bs: seq<PackerBitmap>, ps: seq<Point>, dups: map<int, int>, input: seq<PackerBitmap>)
    requires |bs| == |ps|
    ensures Progress(job, bs, ps, dups, input, bs, ps, dups, input, [], [], 0, 0)
  {
    assert bs[|bs|..] == [] && ps[|bs|..] == [];
    assert bs[..|bs|] == bs && ps[..|ps|] == ps;
  }

  /** A repeat: its entry copies the original's point, with dupID naming
      it. */
  lemma RepeatStep(job: Job, oldB: seq<PackerBitmap>, oldP: seq<Point>, oldDups: map<int, int>,
                   input: seq<PackerBitmap>, bs: seq<PackerBitmap>, ps: seq<Point>, dups: map<int, int>,
                   rest: seq<PackerBitmap>, rects: seq<BinRect>, granted: seq<RectSize>, ww: int, hh: int,
                   b: PackerBitmap, di: int, p: Point)
    requires Progress(job, oldB, oldP, oldDups, input, bs, ps, dups, rest, rects, granted, ww, hh)
    requires ValidState(bs, ps, dups)
    requires rest != [] && b == rest[|rest| - 1] && IsRepeat(job, dups, b)
    requires di == dups[job.hash(b)] && 0 <= di < |ps| && p == ps[di].(dupID := di)
    ensures ValidState(bs + [b], ps + [p], dups)
    ensures Progress(job, oldB, oldP, oldDups, input, bs + [b], ps + [p], dups, rest[..|rest| - 1],
                     rects + [BinRect(0, 0, 0, 0)], granted, ww, hh)
  {
    var o := |oldB|;
    EntriesAppend(bs, ps, o, rects, dups, ww, hh, job, b, p, BinRect(0, 0, 0, 0), dups, ww, hh);
    RequestsAppend(bs, ps, o, b, p, job.pad);
    TakeLast(input, rest, bs[o..], b);
    AppendSlices(bs, b, o);
    AppendSlices(ps, p, o);
    ExtentRepeatStep(job, rest, dups, granted, ww, hh);
    KeysKnownAppend(job, oldDups, bs, ps, o, dups, b, p, dups);
  }

  /** Skipping a repeat at the end moves the extent computation on by one
      image. */
  lemma ExtentRepeatStep(job: Job, rest: seq<PackerBitmap>, dups: map<int, int>, granted: seq<RectSize>, ww: int, hh: int)
    requires rest != [] && IsRepeat(job, dups, rest[|rest| - 1])
    ensures Extent(rest[..|rest| - 1], dups.Keys, granted, ww, hh, job) == Extent(rest, dups.Keys, granted, ww, hh, job)
  {
  }

  /** Taking the last image left moves it to the front of the reversed
      tail of entries. */
  lemma TakeLast(input: seq<PackerBitmap>, rest: seq<PackerBitmap>, tail: seq<PackerBitmap>, b: PackerBitmap)
    requires input == rest + Reversed(tail) && rest != [] && b == rest[|rest| - 1]
    ensures input == rest[..|rest| - 1] + Reversed(tail + [b])
  {
    ReversedAppend(tail, b);
    assert rest == rest[..|rest| - 1] + [b];
  }

  /** Appending to a sequence leaves its prefixes and extends its
      suffixes. */
  lemma AppendSlices<T>(s: seq<T>, x: T, o: int)
    requires 0 <= o <= |s|
    ensures (s + [x])[o..] == s[o..] + [x] && (s + [x])[..o] == s[..o]
  {
  }

  /** Placing the last image moves the extent computation on by one image. */
  lemma ExtentPlaceStep(job: Job, rest: seq<PackerBitmap>, dups: map<int, int>, granted: seq<RectSize>, ww: int, hh: int,
                        b: PackerBitmap, r: BinRect, dups': map<int, int>, idx: int)
    requires rest != [] && b == rest[|rest| - 1] && !IsRepeat(job, dups, b)
    requires r == Attempt(job, granted, b) && !Failed(r)
    requires dups' == if job.unique then dups[job.hash(b) := idx] else dups
    ensures Extent(rest[..|rest| - 1], dups'.Keys, granted + [Request(b, job.pad)], Max(r.x + r.width, ww), Max(r.y + r.height, hh), job)
         == Extent(rest, dups.Keys, granted, ww, hh, job)
  {
    assert dups'.Keys == if job.unique then dups.Keys + {job.hash(b)} else dups.Keys;
  }

  /** A placed image: its entry records where the rectangle packer put it. */
  lemma PlaceStep(job: Job, oldB: seq<PackerBitmap>, oldP: seq<Point>, oldDups: map<int, int>,
                  input: seq<PackerBitmap>, bs: seq<PackerBitmap>, ps: seq<Point>, dups: map<int, int>,
                  rest: seq<PackerBitmap>, rects: seq<BinRect>, granted: seq<RectSize>, ww: int, hh: int,
                  b: PackerBitmap, r: BinRect, p: Point, dups': map<int, int>)
    requires Progress(job, oldB, oldP, oldDups, input, bs, ps, dups, rest, rects, granted, ww, hh)
    requires rest != [] && b == rest[|rest| - 1] && !IsRepeat(job, dups, b)
    requires r == Attempt(job, granted, b) && !Failed(r)
    requires p == Point(r.x, r.y, -1, job.rotate && b.Width != r.width - job.pad)
    requires dups' == if job.unique then dups[job.hash(b) := |ps|] else dups
    ensures Progress(job, oldB, oldP, oldDups, input, bs + [b], ps + [p], dups', rest[..|rest| - 1],
                     rects + [r], granted + [Request(b, job.pad)], Max(r.x + r.width, ww), Max(r.y + r.height, hh))
  {
    var o := |oldB|;
    EntriesAppend(bs, ps, o, rects, dups, ww, hh, job, b, p, r, dups', Max(r.x + r.width, ww), Max(r.y + r.height, hh));
    RequestsAppend(bs, ps, o, b, p, job.pad);
    TakeLast(input, rest, bs[o..], b);
    AppendSlices(bs, b, o);
    AppendSlices(ps, p, o);
    ExtentPlaceStep(job, rest, dups, granted, ww, hh, b, r, dups', |ps|);
    KeysKnownAppend(job, oldDups, bs, ps, o, dups, b, p, dups');
  }

  /** Placing keeps the entries well formed. */
  lemma PlaceKeepsValid(job: Job, bs: seq<PackerBitmap>, ps: seq<Point>, dups: map<int, int>,
                        b: PackerBitmap, p: Point, dups': map<int, int>)
    requires ValidState(bs, ps, dups) && !IsRepeat(job, dups, b) && p.dupID == -1
    requires dups' == if job.unique then dups[job.hash(b) := |ps|] else dups
    ensures ValidState(bs + [b], ps + [p], dups')
  {
  }

  /** The loop ends when the input is used up or there was no room. */
  lemma StopStep(job: Job, oldB: seq<PackerBitmap>, oldP: seq<Point>, oldDups: map<int, int>,
                 input: seq<PackerBitmap>, bs: seq<PackerBitmap>, ps: seq<Point>, dups: map<int, int>,
                 rest: seq<PackerBitmap>, rects: seq<BinRect>, granted: seq<RectSize>, ww: int, hh: int)
    requires Progress(job, oldB, oldP, oldDups, input, bs, ps, dups, rest, rects, granted, ww, hh)
    requires rest != [] ==> Stopped(job, rest[|rest| - 1], dups, granted)
    ensures Placement(job, oldB, oldP, oldDups, input, bs, ps, dups, rest, rects, granted, ww, hh)
  {
  }

  /** The dedup table the loop keeps is the one it saw: a new entry is a
      repeat exactly when duplicates are merged and its key was in the table
      when the entry was made, that is, before the loop or as the key of an
      earlier new entry that is not a repeat. */
  lemma RepeatExactlyWhenSeen(job: Job, oldB: seq<PackerBitmap>, oldP: seq<Point>, oldDups: map<int, int>,
                              input: seq<PackerBitmap>, bs: seq<PackerBitmap>, ps: seq<Point>, dups: map<int, int>,
                              rest: seq<PackerBitmap>, rects: seq<BinRect>, granted: seq<RectSize>, ww: int, hh: int, k: int)
    requires Progress(job, oldB, oldP, oldDups, input, bs, ps, dups, rest, rects, granted, ww, hh)
    requires ValidState(oldB, oldP, oldDups) && ValidState(bs, ps, dups)
    requires |oldB| <= k < |bs|
    ensures ps[k].dupID != -1 <==> job.unique && KeySeen(job, oldDups, bs, ps, |oldB|, k, job.hash(bs[k]))
  {
    EntryRepeatWhenSeen(job, oldDups, bs, ps, |oldB|, rects, dups, ww, hh, k);
  }

  /** RepeatExactlyWhenSeen from the parts of Progress it needs. */
  lemma EntryRepeatWhenSeen(job: Job, oldDups: map<int, int>, bs: seq<PackerBitmap>, ps: seq<Point>, o: int,
                            rects: seq<BinRect>, dups: map<int, int>, ww: int, hh: int, k: int)
    requires 0 <= o && |bs| == |ps| == o + |rects|
    requires forall h :: h in oldDups ==> oldDups[h] < o
    requires Grows(oldDups, dups) && KeysKnown(job, oldDups, bs, ps, o, dups)
    requires Entries(bs, ps, o, rects, dups, ww, hh, job) && ValidState(bs, ps, dups)
    requires o <= k < |bs|
    ensures ps[k].dupID != -1 <==> job.unique && KeySeen(job, oldDups, bs, ps, o, k, job.hash(bs[k]))
  {
    var h := job.hash(bs[k]);
    assert EntryOK(job, bs[k], ps[k], rects[k - o], Requests(bs[o..k], ps[o..k], job.pad), dups, k, ww, hh);
    if ps[k].dupID != -1 {
      if h !in oldDups {
        assert KeySeen(job, oldDups, bs, ps, o, |bs|, h);
        var j :| o <= j < |bs| && ps[j].dupID == -1 && job.hash(bs[j]) == h;
        assert EntryOK(job, bs[j], ps[j], rects[j - o], Requests(bs[o..j], ps[o..j], job.pad), dups, j, ww, hh);
      }
    } else if job.unique {
      forall j | o <= j < k && ps[j].dupID == -1
        ensures job.hash(bs[j]) != h
      {
        assert EntryOK(job, bs[j], ps[j], rects[j - o], Requests(bs[o..j], ps[o..j], job.pad), dups, j, ww, hh);
      }
    }
  }

  /** When the round placed nothing new the used extent is zero. */
  lemma NothingPlacedNoExtent(job: Job, oldB: seq<PackerBitmap>, oldP: seq<Point>, oldDups: map<int, int>,
                              input: seq<PackerBitmap>, bs: seq<PackerBitmap>, ps: seq<Point>, dups: map<int, int>,
                              rest: seq<PackerBitmap>, rects: seq<BinRect>, placed: seq<RectSize>, ww: int, hh: int)
    requires Placement(job, oldB, oldP, oldDups, input, bs, ps, dups, rest, rects, placed, ww, hh)
    requires |bs| == |oldB|
    ensures rest == input
    ensures ww == 0 && hh == 0
  {
    assert bs[|oldB|..] == [];
    assert placed == [];
    assert Progress(job, oldB, oldP, oldDups, input, bs, ps, dups, rest, rects, placed, ww, hh);
    assert Grows(oldDups, dups);
    if input != [] {
      var last := input[|input| - 1];
      assert Stopped(job, last, dups, []);
      GrowsKeeps(oldDups, dups, job.hash(last));
    }
  }

  /** C#'s integer division by two, which truncates toward zero. */
  function Half(n: int): (r: int)
    ensures n >= 0 ==> 0 <= r && 2 * r <= n <= 2 * r + 1
    ensures n < 0 ==> r <= 0
  {
    if n >= 0 then n / 2 else -((-n) / 2)
  }

  /** n halved k times. */
  function Halved(n: int, k: nat): int
  {
    if k == 0 then n else Half(Halved(n, k - 1))
  }

  /** With nothing placed (extent 0) the shrink test `Width / 2 >= ww`
      holds after any number of halvings of a size that is not negative,
      so the shrink loop never ends. */
  lemma {:induction false} ShrinkNeverStops(w: int, k: nat)
    requires w >= 0
    ensures Halved(w, k) >= 0
    ensures Half(Halved(w, k)) >= 0
  {
    if k > 0 {
      ShrinkNeverStops(w, k - 1);
    }
  }

  /** The shrink of one side: w is w0 halved k times, the last size whose
      half no longer covers the extent e, and every earlier halving did
      cover it. */
  ghost predicate ShrunkTo(w0: int, e: int, w: int, k: nat)
  {
    && w == Halved(w0, k)
    && Half(w) < e
    && (forall k' :: 0 <= k' < k ==> Half(Halved(w0, k')) >= e)
  }

  /** The shrunk size still covers the extent and is at most the original
      one. */
  lemma ShrunkCovers(w0: int, e: int, w: int, k: nat)
    requires ShrunkTo(w0, e, w, k) && e > 0 && w0 >= e
    ensures e <= w <= w0
  {
    HalvingsCover(w0, e, k);
  }

  /** Halving while half covers e keeps the size between e and the start. */
  lemma {:induction false} HalvingsCover(w0: int, e: int, k: nat)
    requires e > 0 && w0 >= e
    requires forall k' :: 0 <= k' < k ==> Half(Halved(w0, k')) >= e
    ensures e <= Halved(w0, k) <= w0
    decreases k
  {
    if k > 0 {
      HalvingsCover(w0, e, k - 1);
    }
  }

  /** An image and the place an entry gives it, as SavePng draws it: the
      kept pixels (w x h, row-major), the corner, whether turned, and
      whether the entry is a repeat drawn elsewhere. */
  datatype Sprite = Sprite(pixels: seq<bv32>, w: int, h: int, x: int, y: int, rot: bool, dup: bool)

  /** Width and height of the area a sprite covers in the atlas. */
  function SpanW(s: Sprite): int { if s.rot then s.h else s.w }
  function SpanH(s: Sprite): int { if s.rot then s.w else s.h }

  /** SavePng writes atlas cell (cx, cy) for sprite s. */
  predicate Covers(s: Sprite, cx: int, cy: int)
  {
    !s.dup && s.x <= cx < s.x + SpanW(s) && s.y <= cy < s.y + SpanH(s)
  }

  /** The sprite's pixels fill its w x h size. */
  predicate Sound(s: Sprite)
  {
    0 <= s.w && 0 <= s.h && ValidImage(Picture(s))
  }

  /** The sprite's own pixels as an image. */
  function Picture(s: Sprite): Image
    requires 0 <= s.w && 0 <= s.h
  {
    Image(s.pixels, s.w, s.h)
  }

  /** A sprite SavePng can draw: a repeat, or a sound sprite inside the
      W x H atlas. */
  predicate Drawable(s: Sprite, W: int, H: int)
  {
    s.dup || (Sound(s) && 0 <= s.x && s.x + SpanW(s) <= W && 0 <= s.y && s.y + SpanH(s) <= H)
  }

  /** The pixel s puts in atlas cell (cx, cy): straight, the pixel at the
      same offset; turned, the image a quarter turn clockwise. */
  function SpritePixel(s: Sprite, cx: int, cy: int): bv32
    requires Sound(s) && Covers(s, cx, cy)
  {
    var dx := cx - s.x;
    var dy := cy - s.y;
    if s.rot then PixelAt(Picture(s), dy, s.h - 1 - dx) else PixelAt(Picture(s), dx, dy)
  }

  /** The atlas cell where source pixel (sx, sy) of s lands. */
  function Target(s: Sprite, sx: int, sy: int): (int, int)
  {
    if s.rot then (s.x + s.h - 1 - sy, s.y + sx) else (s.x + sx, s.y + sy)
  }

  /** Every pixel of a drawn sprite lands inside its area, at Target, so the
      straight copy shifts the image and the turned copy turns it a quarter
      clockwise, losing no pixel. */
  lemma EveryPixelShown(s: Sprite, sx: int, sy: int)
    requires Sound(s) && !s.dup && 0 <= sx < s.w && 0 <= sy < s.h
    ensures Covers(s, Target(s, sx, sy).0, Target(s, sx, sy).1)
    ensures SpritePixel(s, Target(s, sx, sy).0, Target(s, sx, sy).1) == PixelAt(Picture(s), sx, sy)
  {
  }

  /** Distinct source pixels land in distinct cells. */
  lemma TargetInjective(s: Sprite, sx1: int, sy1: int, sx2: int, sy2: int)
    requires Target(s, sx1, sy1) == Target(s, sx2, sy2)
    ensures sx1 == sx2 && sy1 == sy2
  {
  }

  /** The atlas cell (cx, cy) after drawing the sprites in order over base:
      the last sprite that covers it wins. */
  function CellAfter(base: bv32, sprites: seq<Sprite>, W: int, H: int, cx: int, cy: int): bv32
    requires forall i :: 0 <= i < |sprites| ==> Drawable(sprites[i], W, H)
  {
    if sprites == [] then base
    else
      var s := sprites[|sprites| - 1];
      assert Drawable(s, W, H);
      if Covers(s, cx, cy) then SpritePixel(s, cx, cy)
      else CellAfter(base, sprites[..|sprites| - 1], W, H, cx, cy)
  }

  /** A cell no sprite covers keeps its first value. */
  lemma {:induction false} UncoveredKeepsBase(base: bv32, sprites: seq<Sprite>, W: int, H: int, cx: int, cy: int)
    requires forall i :: 0 <= i < |sprites| ==> Drawable(sprites[i], W, H)
    requires forall i :: 0 <= i < |sprites| ==> !Covers(sprites[i], cx, cy)
    ensures CellAfter(base, sprites, W, H, cx, cy) == base
    decreases |sprites|
  {
    if sprites != [] {
      UncoveredKeepsBase(base, sprites[..|sprites| - 1], W, H, cx, cy);
    }
  }

  /** A cell shows the pixel of the last sprite that covers it. */
  lemma {:induction false} LastWriterWins(base: bv32, sprites: seq<Sprite>, W: int, H: int, k: int, cx: int, cy: int)
    requires forall i :: 0 <= i < |sprites| ==> Drawable(sprites[i], W, H)
    requires 0 <= k < |sprites| && Covers(sprites[k], cx, cy)
    requires forall i :: k < i < |sprites| ==> !Covers(sprites[i], cx, cy)
    ensures CellAfter(base, sprites, W, H, cx, cy) == SpritePixel(sprites[k], cx, cy)
    decreases |sprites|
  {
    if k < |sprites| - 1 {
      LastWriterWins(base, sprites[..|sprites| - 1], W, H, k, cx, cy);
    }
  }

  /** A repeat draws nothing: the atlas is the same without it. */
  lemma {:induction false} RepeatDrawsNothing(base: bv32, sprites: seq<Sprite>, W: int, H: int, k: int, cx: int, cy: int)
    requires forall i :: 0 <= i < |sprites| ==> Drawable(sprites[i], W, H)
    requires 0 <= k < |sprites| && sprites[k].dup
    ensures CellAfter(base, sprites, W, H, cx, cy) == CellAfter(base, RemoveAt(sprites, k), W, H, cx, cy)
    decreases |sprites|
  {
    var n := |sprites|;
    var front := sprites[..n - 1];
    if k < n - 1 {
      var s := sprites[n - 1];
      var r := RemoveAt(sprites, k);
      var r' := RemoveAt(front, k);
      RepeatDrawsNothing(base, front, W, H, k, cx, cy);
      assert sprites == front + [s];
      assert r == r' + [s];
      CellAfterPush(base, front, s, W, H, cx, cy);
      CellAfterPush(base, r', s, W, H, cx, cy);
    } else {
      assert RemoveAt(sprites, k) == front;
    }
  }

  /** Drawing one more sprite s changes just the cells s covers. */
  lemma CellAfterPush(base: bv32, front: seq<Sprite>, s: Sprite, W: int, H: int, cx: int, cy: int)
    requires forall i :: 0 <= i < |front| ==> Drawable(front[i], W, H)
    requires Drawable(s, W, H)
    ensures forall i :: 0 <= i < |front + [s]| ==> Drawable((front + [s])[i], W, H)
    ensures CellAfter(base, front + [s], W, H, cx, cy)
         == if Covers(s, cx, cy) then SpritePixel(s, cx, cy) else CellAfter(base, front, W, H, cx, cy)
  {
    assert (front + [s])[..|front|] == front;
    forall i | 0 <= i < |front + [s]| ensures Drawable((front + [s])[i], W, H) {
      if i < |front| { assert (front + [s])[i] == front[i]; }
    }
  }

  /** buf is the W x H atlas buffer base with the sprites drawn over it
      in order. */
  ghost predicate Shows(buf: seq<bv32>, W: int, H: int, base: seq<bv32>, sprites: seq<Sprite>)
    requires forall i :: 0 <= i < |sprites| ==> Drawable(sprites[i], W, H)
  {
    && |base| == |buf|
    && forall cx, cy :: 0 <= cx < W && 0 <= cy < H ==>
         && 0 <= GridIndex(cx, cy, W) < |buf|
         && buf[GridIndex(cx, cy, W)] == CellAfter(base[GridIndex(cx, cy, W)], sprites, W, H, cx, cy)
  }

  /** Drawing of s is done up to (xx, yy) of its area in row order: cells
      already drawn hold the sprite's pixel, every other cell its value
      from before. */
  ghost predicate Painted(after: seq<bv32>, before: seq<bv32>, W: int, H: int, s: Sprite, xx: int, yy: int)
    requires Drawable(s, W, H)
  {
    && |after| == |before|
    && forall cx, cy :: 0 <= cx < W && 0 <= cy < H ==>
         && 0 <= GridIndex(cx, cy, W) < |after|
         && after[GridIndex(cx, cy, W)]
            == if Covers(s, cx, cy) && ScannedBefore(cx - s.x, cy - s.y, xx, yy) then SpritePixel(s, cx, cy)
               else before[GridIndex(cx, cy, W)]
  }

  lemma PaintedStart(buf: seq<bv32>, W: int, H: int, s: Sprite)
    requires Drawable(s, W, H) && |buf| == W * H
    ensures Painted(buf, buf, W, H, s, 0, 0)
  {
    forall cx, cy | 0 <= cx < W && 0 <= cy < H
      ensures 0 <= GridIndex(cx, cy, W) < |buf|
    {
      IndexInGrid(cx, cy, W, H);
    }
  }

  /** Writing the sprite's pixel into cell (s.x + xx, s.y + yy) moves the
      drawing on by one cell. */
  lemma PaintStep(after: seq<bv32>, before: seq<bv32>, W: int, H: int, s: Sprite, xx: int, yy: int)
    requires Drawable(s, W, H) && !s.dup
    requires Painted(after, before, W, H, s, xx, yy)
    requires 0 <= xx < SpanW(s) && 0 <= yy < SpanH(s)
    ensures Covers(s, s.x + xx, s.y + yy)
    ensures 0 <= GridIndex(s.x + xx, s.y + yy, W) < |after|
    ensures Painted(after[GridIndex(s.x + xx, s.y + yy, W) := SpritePixel(s, s.x + xx, s.y + yy)], before, W, H, s, xx + 1, yy)
  {
    var i := GridIndex(s.x + xx, s.y + yy, W);
    assert 0 <= i < |after|;
    var after' := after[i := SpritePixel(s, s.x + xx, s.y + yy)];
    forall cx, cy | 0 <= cx < W && 0 <= cy < H
      ensures after'[GridIndex(cx, cy, W)]
              == if Covers(s, cx, cy) && ScannedBefore(cx - s.x, cy - s.y, xx + 1, yy) then SpritePixel(s, cx, cy)
                 else before[GridIndex(cx, cy, W)]
    {
      if cx != s.x + xx || cy != s.y + yy {
        GridIndexInjective(cx, cy, s.x + xx, s.y + yy, W);
      }
    }
  }

  /** The end of a row of the sprite's area is the start of the next. */
  lemma PaintNextRow(after: seq<bv32>, before: seq<bv32>, W: int, H: int, s: Sprite, yy: int)
    requires Drawable(s, W, H)
    requires Painted(after, before, W, H, s, SpanW(s), yy)
    ensures Painted(after, before, W, H, s, 0, yy + 1)
  {
  }

  /** A buffer shows itself with nothing drawn. */
  lemma ShowsStart(buf: seq<bv32>, W: int, H: int)
    requires |buf| == W * H
    ensures Shows(buf, W, H, buf, [])
  {
    forall cx, cy | 0 <= cx < W && 0 <= cy < H
      ensures 0 <= GridIndex(cx, cy, W) < |buf|
    {
      IndexInGrid(cx, cy, W, H);
    }
  }

  /** A finished drawing of the next sprite extends what buf shows. */
  lemma ShowsNext(before: seq<bv32>, after: seq<bv32>, W: int, H: int, base: seq<bv32>, sprites: seq<Sprite>, i: int)
    requires forall j :: 0 <= j < |sprites| ==> Drawable(sprites[j], W, H)
    requires 0 <= i < |sprites|
    requires Shows(before, W, H, base, sprites[..i])
    requires Painted(after, before, W, H, sprites[i], 0, SpanH(sprites[i]))
    ensures Shows(after, W, H, base, sprites[..i + 1])
  {
    assert sprites[..i + 1][..i] == sprites[..i];
  }

  /** A repeat leaves buf as it is. */
  lemma ShowsSkip(buf: seq<bv32>, W: int, H: int, base: seq<bv32>, sprites: seq<Sprite>, i: int)
    requires forall j :: 0 <= j < |sprites| ==> Drawable(sprites[j], W, H)
    requires 0 <= i < |sprites| && sprites[i].dup
    requires Shows(buf, W, H, base, sprites[..i])
    ensures Shows(buf, W, H, base, sprites[..i + 1])
  {
    assert sprites[..i + 1][..i] == sprites[..i];
  }

  /** The sprite of entry (bmp, p). */
  ghost function SpriteOf(bmp: PackerBitmap, p: Point): Sprite
    reads bmp.Data
  {
    Sprite(bmp.Data[..], bmp.Width, bmp.Height, p.x, p.y, p.rot, p.dupID >= 0)
  }

  /** The sprites of the entries bs/ps, in order. */
  ghost function SpritesOf(bs: seq<PackerBitmap>, ps: seq<Point>): (r: seq<Sprite>)
    requires |bs| == |ps|
    reads set b | b in bs :: b.Data
    ensures |r| == |bs|
    ensures forall i :: 0 <= i < |bs| ==> r[i] == SpriteOf(bs[i], ps[i])
    decreases |bs|
  {
    if bs == [] then []
    else SpritesOf(bs[..|bs| - 1], ps[..|ps| - 1]) + [SpriteOf(bs[|bs| - 1], ps[|ps| - 1])]
  }

  /** The C# Packer object. */
  class Packer {
    var Width: int
    var Height: int
    var Pad: int
    var Bitmaps: seq<PackerBitmap>
    var Points: seq<Point>
    var DupLookup: map<int, int>

    /** Bitmaps and Points run in parallel; every dedup entry names an
        entry that is not a repeat; every repeat is a copy of an earlier
        such entry, with dupID naming it. */
    ghost predicate Valid()
      reads this
    {
      ValidState(Bitmaps, Points, DupLookup)
    }

    constructor(width: int, height: int, pad: int)
      ensures Width == width && Height == height && Pad == pad
      ensures Bitmaps == [] && Points == [] && DupLookup == map[]
      ensures Valid()
    {
      Width := width;
      Height := height;
      Pad := pad;
      Bitmaps := [];
      Points := [];
      DupLookup := map[];
    }

    /** The repeat case of the placement loop: the last image left is a
        repeat and its entry copies the original's point, with dupID
        naming it. */
    method AddRepeat(job: Job, ghost oldB: seq<PackerBitmap>, ghost oldP: seq<Point>, ghost oldDups: map<int, int>,
                     ghost input: seq<PackerBitmap>, rest: seq<PackerBitmap>, ghost rects: seq<BinRect>,
                     ghost granted: seq<RectSize>, ghost ww: int, ghost hh: int)
      requires Valid() && rest != [] && IsRepeat(job, DupLookup, rest[|rest| - 1])
      requires Progress(job, oldB, oldP, oldDups, input, Bitmaps, Points, DupLookup, rest, rects, granted, ww, hh)
      modifies this
      ensures Valid()
      ensures Width == old(Width) && Height == old(Height) && Pad == old(Pad) && DupLookup == old(DupLookup)
      ensures Progress(job, oldB, oldP, oldDups, input, Bitmaps, Points, DupLookup, rest[..|rest| - 1],
                       rects + [BinRect(0, 0, 0, 0)], granted, ww, hh)
    {
      var bitmap := rest[|rest| - 1];
      var di := DupLookup[job.hash(bitmap)];
      LookupInRange(Bitmaps, Points, DupLookup, job.hash(bitmap));
      var p := Points[di].(dupID := di);
      RepeatStep(job, oldB, oldP, oldDups, input, Bitmaps, Points, DupLookup, rest, rects, granted, ww, hh, bitmap, di, p);
      Points := Points + [p];
      Bitmaps := Bitmaps + [bitmap];
    }

    /** The placement case of the placement loop: the rectangle packer put
        the last image left at rect; its point and its dedup key are
        recorded. */
    method AddPlaced(job: Job, ghost oldB: seq<PackerBitmap>, ghost oldP: seq<Point>, ghost oldDups: map<int, int>,
                     ghost input: seq<PackerBitmap>, rest: seq<PackerBitmap>, ghost rects: seq<BinRect>,
                     ghost granted: seq<RectSize>, ghost ww: int, ghost hh: int, rect: BinRect)
      requires job.pad == Pad
      requires Valid() && rest != [] && !IsRepeat(job, DupLookup, rest[|rest| - 1])
      requires rect == Attempt(job, granted, rest[|rest| - 1]) && !Failed(rect)
      requires Progress(job, oldB, oldP, oldDups, input, Bitmaps, Points, DupLookup, rest, rects, granted, ww, hh)
      modifies this
      ensures Valid()
      ensures Width == old(Width) && Height == old(Height) && Pad == old(Pad)
      ensures Progress(job, oldB, oldP, oldDups, input, Bitmaps, Points, DupLookup, rest[..|rest| - 1], rects + [rect],
                       granted + [Request(rest[|rest| - 1], Pad)], Max(rect.x + rect.width, ww), Max(rect.y + rect.height, hh))
    {
      var bitmap := rest[|rest| - 1];
      var dups := if job.unique then DupLookup[job.hash(bitmap) := |Points|] else DupLookup;
      var p := Point(rect.x, rect.y, -1, job.rotate && bitmap.Width != rect.width - Pad);
      PlaceStep(job, oldB, oldP, oldDups, input, Bitmaps, Points, DupLookup, rest, rects, granted, ww, hh, bitmap, rect, p, dups);
      PlaceKeepsValid(job, Bitmaps, Points, DupLookup, bitmap, p, dups);
      DupLookup := dups;
      Points := Points + [p];
      Bitmaps := Bitmaps + [bitmap];
    }

    /** One pass of the placement loop of Pack on the last image left: a
        repeat gets a copy of its original's point; otherwise the
        rectangle packer is asked for room, and stop reports that there
        was none (the state is then left as it was); otherwise the point
        and the extent are recorded. */
    method PlaceNext(job: Job, ghost oldB: seq<PackerBitmap>, ghost oldP: seq<Point>, ghost oldDups: map<int, int>,
                     ghost input: seq<PackerBitmap>, rest: seq<PackerBitmap>, ghost rects: seq<BinRect>,
                     granted: seq<RectSize>, ww: int, hh: int)
      returns (stop: bool, rest': seq<PackerBitmap>, ghost rects': seq<BinRect>, granted': seq<RectSize>, ww': int, hh': int)
      requires job.binW == Width && job.binH == Height && job.pad == Pad
      requires Valid() && rest != []
      requires Progress(job, oldB, oldP, oldDups, input, Bitmaps, Points, DupLookup, rest, rects, granted, ww, hh)
      modifies this
      ensures Valid()
      ensures Width == old(Width) && Height == old(Height) && Pad == old(Pad)
      ensures Progress(job, oldB, oldP, oldDups, input, Bitmaps, Points, DupLookup, rest', rects', granted', ww', hh')
      ensures stop ==> rest' != [] && Stopped(job, rest'[|rest'| - 1], DupLookup, granted')
      ensures !stop ==> |rest'| < |rest|
    {
      var bitmap := rest[|rest| - 1];
      if job.unique && job.hash(bitmap) in DupLookup {
        AddRepeat(job, oldB, oldP, oldDups, input, rest, rects, granted, ww, hh);
        stop, rest', rects', granted', ww', hh' := false, rest[..|rest| - 1], rects + [BinRect(0, 0, 0, 0)], granted, ww, hh;
      } else {
        var rect := job.insert(Width, Height, granted, bitmap.Width + Pad, bitmap.Height + Pad, job.rotate);
        assert rect == Attempt(job, granted, bitmap);
        if rect.width == 0 || rect.height == 0 {
          stop, rest', rects', granted', ww', hh' := true, rest, rects, granted, ww, hh;
          return;
        }
        AddPlaced(job, oldB, oldP, oldDups, input, rest, rects, granted, ww, hh, rect);
        stop, rest', rects' := false, rest[..|rest| - 1], rects + [rect];
        ww', hh' := Max(rect.x + rect.width, ww), Max(rect.y + rect.height, hh);
        granted' := granted + [Request(bitmap, Pad)];
      }
    }

    /** The placement loop of Pack: while images remain, take the last
        and place it (PlaceNext), stopping when there is no room for it.
        The loop's MaxRectsBinPack object is the list of requests it
        granted. */
    method PlaceAll(bitmaps: seq<PackerBitmap>, unique: bool, rotate: bool, insert: Inserter, hash: PackerBitmap -> int)
      returns (rest: seq<PackerBitmap>, ww: int, hh: int, ghost rects: seq<BinRect>, ghost placed: seq<RectSize>)
      requires Valid()
      modifies this
      ensures Valid()
      ensures Width == old(Width) && Height == old(Height) && Pad == old(Pad)
      ensures Placement(Job(Width, Height, Pad, unique, rotate, insert, hash), old(Bitmaps), old(Points), old(DupLookup),
                        bitmaps, Bitmaps, Points, DupLookup, rest, rects, placed, ww, hh)
    {
      var job := Job(Width, Height, Pad, unique, rotate, insert, hash);
      ghost var oldB, oldP, oldDups := Bitmaps, Points, DupLookup;
      rest := bitmaps;
      ww, hh := 0, 0;
      var granted: seq<RectSize> := [];
      rects := [];
      ProgressStart(job, Bitmaps, Points, DupLookup, bitmaps);
      while rest != []
        invariant Valid()
        invariant Width == old(Width) && Height == old(Height) && Pad == old(Pad)
        invariant Progress(job, oldB, oldP, oldDups, bitmaps, Bitmaps, Points, DupLookup, rest, rects, granted, ww, hh)
        decreases |rest|
      {
        var stop;
        stop, rest, rects, granted, ww, hh := PlaceNext(job, oldB, oldP, oldDups, bitmaps, rest, rects, granted, ww, hh);
        if stop {
          break;
        }
      }
      StopStep(job, oldB, oldP, oldDups, bitmaps, Bitmaps, Points, DupLookup, rest, rects, granted, ww, hh);
      placed := granted;
    }

    /** The shrink loops of Pack: halve each side while half of it still
        covers the used extent. */
    method Shrink(ww: int, hh: int) returns (ghost kw: nat, ghost kh: nat)
      requires ww > 0 && hh > 0
      modifies this
      ensures ShrunkTo(old(Width), ww, Width, kw) && ShrunkTo(old(Height), hh, Height, kh)
      ensures Pad == old(Pad) && Bitmaps == old(Bitmaps) && Points == old(Points) && DupLookup == old(DupLookup)
    {
      kw := 0;
      while Half(Width) >= ww
        invariant Width == Halved(old(Width), kw)
        invariant forall k' :: 0 <= k' < kw ==> Half(Halved(old(Width), k')) >= ww
        invariant Height == old(Height) && Pad == old(Pad)
        invariant Bitmaps == old(Bitmaps) && Points == old(Points) && DupLookup == old(DupLookup)
        decreases Width
      {
        Width := Half(Width);
        kw := kw + 1;
      }
      kh := 0;
      ghost var width := Width;
      while Half(Height) >= hh
        invariant Height == Halved(old(Height), kh)
        invariant forall k' :: 0 <= k' < kh ==> Half(Halved(old(Height), k')) >= hh
        invariant Width == width && Pad == old(Pad)
        invariant Bitmaps == old(Bitmaps) && Points == old(Points) && DupLookup == old(DupLookup)
        decreases Height
      {
        Height := Half(Height);
        kh := kh + 1;
      }
    }

    /** Pack as written: the placement loop, then the shrink loops, which
        never end when nothing was placed (the used extent is 0; see
        ShrinkNeverStops), so the caller must bring a round that places
        something.  bitmaps is the input list; rest is what is left of it. */
    method Pack(bitmaps: seq<PackerBitmap>, unique: bool, rotate: bool, insert: Inserter, hash: PackerBitmap -> int)
      returns (rest: seq<PackerBitmap>, ghost ww: int, ghost hh: int, ghost rects: seq<BinRect>, ghost placed: seq<RectSize>)
      requires Valid()
      requires Extent(bitmaps, DupLookup.Keys, [], 0, 0, Job(Width, Height, Pad, unique, rotate, insert, hash)).0 > 0
      requires Extent(bitmaps, DupLookup.Keys, [], 0, 0, Job(Width, Height, Pad, unique, rotate, insert, hash)).1 > 0
      modifies this
      ensures Valid()
      ensures Pad == old(Pad)
      ensures Placement(Job(old(Width), old(Height), Pad, unique, rotate, insert, hash), old(Bitmaps), old(Points), old(DupLookup),
                        bitmaps, Bitmaps, Points, DupLookup, rest, rects, placed, ww, hh)
      ensures exists kw: nat, kh: nat :: ShrunkTo(old(Width), ww, Width, kw) && ShrunkTo(old(Height), hh, Height, kh)
    {
      var w, h;
      rest, w, h, rects, placed := PlaceAll(bitmaps, unique, rotate, insert, hash);
      ww, hh := w, h;
      var kw, kh := Shrink(w, h);
    }

    /** Pack with the shrink skipped when nothing was placed: the round
        then ends and leaves the size as it was. */
    method PackFixed(bitmaps: seq<PackerBitmap>, unique: bool, rotate: bool, insert: Inserter, hash: PackerBitmap -> int)
      returns (rest: seq<PackerBitmap>, ghost ww: int, ghost hh: int, ghost rects: seq<BinRect>, ghost placed: seq<RectSize>)
      requires Valid()
      modifies this
      ensures Valid()
      ensures Pad == old(Pad)
      ensures Placement(Job(old(Width), old(Height), Pad, unique, rotate, insert, hash), old(Bitmaps), old(Points), old(DupLookup),
                        bitmaps, Bitmaps, Points, DupLookup, rest, rects, placed, ww, hh)
      ensures ww > 0 && hh > 0 ==>
                exists kw: nat, kh: nat :: ShrunkTo(old(Width), ww, Width, kw) && ShrunkTo(old(Height), hh, Height, kh)
      ensures !(ww > 0 && hh > 0) ==> Width == old(Width) && Height == old(Height)
    {
      var w, h;
      rest, w, h, rects, placed := PlaceAll(bitmaps, unique, rotate, insert, hash);
      ww, hh := w, h;
      if w > 0 && h > 0 {
        var kw, kh := Shrink(w, h);
      }
    }

    /** Row y of the straight copy loop of SavePng: row y of bmp goes to
        row p.y + y of the Width-wide atlas buffer dest, from column p.x. */
    method DrawStraightRow(dest: array<bv32>, bmp: PackerBitmap, p: Point, y: int, ghost before: seq<bv32>)
      requires dest.Length == Width * Height && bmp.Data != dest && p.dupID < 0 && !p.rot
      requires WellFormed(bmp) && Drawable(SpriteOf(bmp, p), Width, Height) && 0 <= y < bmp.Height
      requires Painted(dest[..], before, Width, Height, SpriteOf(bmp, p), 0, y)
      modifies dest
      ensures Painted(dest[..], before, Width, Height, SpriteOf(bmp, p), 0, y + 1)
    {
      ghost var s := SpriteOf(bmp, p);
      var x := 0;
      while x < bmp.Width
        invariant 0 <= x <= bmp.Width
        invariant Painted(dest[..], before, Width, Height, s, x, y)
      {
        PaintStep(dest[..], before, Width, Height, s, x, y);
        IndexInGrid(x, y, bmp.Width, bmp.Height);
        ghost var cur := dest[..];
        assert s.x == p.x && s.y == p.y;
        var v := bmp.Data[GridIndex(x, y, bmp.Width)];
        assert v == SpritePixel(s, s.x + x, s.y + y);
        dest[GridIndex(p.x + x, p.y + y, Width)] := v;
        assert dest[..] == cur[GridIndex(s.x + x, s.y + y, Width) := SpritePixel(s, s.x + x, s.y + y)];
        x := x + 1;
      }
      PaintNextRow(dest[..], before, Width, Height, s, y);
    }

    /** The straight copy loop of SavePng: draw bmp at p into the
        Width-wide atlas buffer dest. */
    method DrawStraight(dest: array<bv32>, bmp: PackerBitmap, p: Point)
      requires dest.Length == Width * Height && bmp.Data != dest && p.dupID < 0 && !p.rot
      requires WellFormed(bmp) && Drawable(SpriteOf(bmp, p), Width, Height)
      modifies dest
      ensures Painted(dest[..], old(dest[..]), Width, Height, SpriteOf(bmp, p), 0, SpanH(SpriteOf(bmp, p)))
    {
      ghost var before := dest[..];
      PaintedStart(before, Width, Height, SpriteOf(bmp, p));
      var y := 0;
      while y < bmp.Height
        invariant 0 <= y <= bmp.Height
        invariant Painted(dest[..], before, Width, Height, SpriteOf(bmp, p), 0, y)
      {
        DrawStraightRow(dest, bmp, p, y, before);
        y := y + 1;
      }
    }

    /** Row y of the turned copy loop of SavePng: column y of bmp, read
        from its last row up, goes to row p.y + y of dest. */
    method DrawTurnedRow(dest: array<bv32>, bmp: PackerBitmap, p: Point, y: int, ghost before: seq<bv32>)
      requires dest.Length == Width * Height && bmp.Data != dest && p.dupID < 0 && p.rot
      requires WellFormed(bmp) && Drawable(SpriteOf(bmp, p), Width, Height) && 0 <= y < bmp.Width
      requires Painted(dest[..], before, Width, Height, SpriteOf(bmp, p), 0, y)
      modifies dest
      ensures Painted(dest[..], before, Width, Height, SpriteOf(bmp, p), 0, y + 1)
    {
      ghost var s := SpriteOf(bmp, p);
      var r := bmp.Height - 1;
      var x := 0;
      while x < bmp.Height
        invariant 0 <= x <= bmp.Height
        invariant Painted(dest[..], before, Width, Height, s, x, y)
      {
        PaintStep(dest[..], before, Width, Height, s, x, y);
        IndexInGrid(y, r - x, bmp.Width, bmp.Height);
        ghost var cur := dest[..];
        assert s.x == p.x && s.y == p.y;
        var v := bmp.Data[GridIndex(y, r - x, bmp.Width)];
        assert v == SpritePixel(s, s.x + x, s.y + y);
        dest[GridIndex(p.x + x, p.y + y, Width)] := v;
        assert dest[..] == cur[GridIndex(s.x + x, s.y + y, Width) := SpritePixel(s, s.x + x, s.y + y)];
        x := x + 1;
      }
      PaintNextRow(dest[..], before, Width, Height, s, y);
    }

    /** The turned copy loop of SavePng: draw bmp at p a quarter turn
        clockwise, its rows becoming columns. */
    method DrawTurned(dest: array<bv32>, bmp: PackerBitmap, p: Point)
      requires dest.Length == Width * Height && bmp.Data != dest && p.dupID < 0 && p.rot
      requires WellFormed(bmp) && Drawable(SpriteOf(bmp, p), Width, Height)
      modifies dest
      ensures Painted(dest[..], old(dest[..]), Width, Height, SpriteOf(bmp, p), 0, SpanH(SpriteOf(bmp, p)))
    {
      ghost var before := dest[..];
      PaintedStart(before, Width, Height, SpriteOf(bmp, p));
      var y := 0;
      while y < bmp.Width
        invariant 0 <= y <= bmp.Width
        invariant Painted(dest[..], before, Width, Height, SpriteOf(bmp, p), 0, y)
      {
        DrawTurnedRow(dest, bmp, p, y, before);
        y := y + 1;
      }
    }

    /** One pass of the drawing loop of SavePng: entry i (bmp at p) is
        drawn over dest, turned or straight, unless it is a repeat. */
    method DrawEntry(dest: array<bv32>, bmp: PackerBitmap, p: Point, ghost sprites: seq<Sprite>, i: int, ghost unset: seq<bv32>)
      requires dest.Length == Width * Height && bmp.Data != dest
      requires p.dupID >= 0 || WellFormed(bmp)
      requires 0 <= i < |sprites| && sprites[i] == SpriteOf(bmp, p)
      requires forall j :: 0 <= j < |sprites| ==> Drawable(sprites[j], Width, Height)
      requires Shows(dest[..], Width, Height, unset, sprites[..i])
      modifies dest
      ensures Shows(dest[..], Width, Height, unset, sprites[..i + 1])
    {
      if p.dupID < 0 {
        ghost var before := dest[..];
        if p.rot {
          DrawTurned(dest, bmp, p);
        } else {
          DrawStraight(dest, bmp, p);
        }
        ShowsNext(before, dest[..], Width, Height, unset, sprites, i);
      } else {
        ShowsSkip(dest[..], Width, Height, unset, sprites, i);
      }
    }

    /** The pixel part of SavePng: a new Width x Height buffer, whose first
        contents (unset memory) are `unset`, with every entry that is not a
        repeat drawn over it in order, so that each cell shows the last
        entry covering it and cells no entry covers keep their first
        contents. */
    method SavePixels() returns (dest: array<bv32>, ghost unset: seq<bv32>)
      requires 0 <= Width && 0 <= Height && |Points| == |Bitmaps|
      requires forall i :: 0 <= i < |Bitmaps| ==> Points[i].dupID >= 0 || WellFormed(Bitmaps[i])
      requires forall i :: 0 <= i < |Bitmaps| ==> Drawable(SpriteOf(Bitmaps[i], Points[i]), Width, Height)
      ensures fresh(dest) && dest.Length == Width * Height
      ensures Shows(dest[..], Width, Height, unset, old(SpritesOf(Bitmaps, Points)))
    {
      ghost var sprites := SpritesOf(Bitmaps, Points);
      MulMono(0, Width, Height);
      dest := new bv32[Width * Height];
      unset := dest[..];
      ShowsStart(unset, Width, Height);
      assert sprites[..0] == [];
      assert forall j :: 0 <= j < |sprites| ==> Drawable(sprites[j], Width, Height);
      var i := 0;
      while i < |Bitmaps|
        invariant 0 <= i <= |Bitmaps|
        invariant Shows(dest[..], Width, Height, unset, sprites[..i])
      {
        var bitmap, point := Bitmaps[i], Points[i];
        assert bitmap.Data != dest;
        assert sprites[i] == SpriteOf(bitmap, point);
        DrawEntry(dest, bitmap, point, sprites, i, unset);
        i := i + 1;
      }
      assert sprites[..i] == sprites;
    }
  }
}
