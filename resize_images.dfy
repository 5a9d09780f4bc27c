/** The image build script resize_images.rb: for every full-size picture of
    bubbles and every width from 200 to 2000 in steps of 200, it looks for a
    JPEG quality by bisection and leaves the resized file compressed at the
    quality it chose. `compress` is an oracle that gives the size of the
    compressed file for a quality. */
module ResizeImages {
  import opened Common

  /** `range.to_a` for the integer range lo..hi. */
  function Span(lo: int, hi: int): (a: seq<int>)
    ensures |a| == if lo <= hi then hi - lo + 1 else 0
    ensures forall i :: 0 <= i < |a| ==> a[i] == lo + i
  {
    if lo > hi then [] else seq(hi - lo + 1, i => lo + i)
  }

  /** One step of Ruby's `Array#bsearch` in find-minimum mode on
      `a[low..high]`: probe the middle, then keep the lower half when the
      block holds there and the upper half otherwise. */
  function Narrow(a: seq<int>, size: int -> int, max: int, low: nat, high: nat): (r: (nat, nat))
    requires low < high <= |a|
    ensures low <= r.0 <= r.1 <= high && r.1 - r.0 < high - low
    ensures r.0 == low || r.1 == high
    ensures r.1 < high ==> size(a[r.1]) >= max
    ensures low < r.0 ==> size(a[r.0 - 1]) < max
  {
    var mid := low + (high - low) / 2;
    if size(a[mid]) >= max then (low, mid) else (mid + 1, high)
  }

  /** `Array#bsearch` in find-minimum mode: narrow until the range is empty,
      remembering whether the block held at its upper end. Gives the index
      it ends on when the block ever held. */
  function BSearch(a: seq<int>, size: int -> int, max: int, low: nat, high: nat, satisfied: bool): (r: Option<nat>)
    requires low <= high <= |a|
    requires satisfied ==> high < |a| && size(a[high]) >= max
    ensures r.Some? ==> r.value < |a| && size(a[r.value]) >= max
    decreases high - low
  {
    if low == high then (if satisfied then Some(low) else None)
    else
      var next := Narrow(a, size, max, low, high);
      BSearch(a, size, max, next.0, next.1, satisfied || next.1 < high)
  }

  /** The elements the same search hands to the block, in order. */
  function Probed(a: seq<int>, size: int -> int, max: int, low: nat, high: nat): seq<int>
    requires low <= high <= |a|
    decreases high - low
  {
    if low == high then []
    else
      var next := Narrow(a, size, max, low, high);
      [a[low + (high - low) / 2]] + Probed(a, size, max, next.0, next.1)
  }

  /** What qsearch returns and the qualities it handed to the block, in order. */
  datatype Search = Search(result: int, probes: seq<int>)

  /** qsearch: probe the top of the range; if that file is over the budget,
      bisect for the first quality whose size reaches the budget, falling
      back to the bottom of the range when there is none. */
  function QSearch(lo: int, hi: int, max: int, size: int -> int): (r: Search)
    ensures r.probes != [] && r.probes[0] == hi
    ensures r.result == hi <== size(hi) <= max
    ensures size(hi) > max ==> r.result == lo || size(r.result) >= max
  {
    if size(hi) > max then
      var a := Span(lo, hi);
      var found := BSearch(a, size, max, 0, |a|, false);
      Search(if found.Some? then a[found.value] else lo, [hi] + Probed(a, size, max, 0, |a|))
    else Search(hi, [hi])
  }

  /** Number of binary digits of n. */
  function Bits(n: nat): nat {
    if n == 0 then 0 else 1 + Bits(n / 2)
  }

  lemma {:induction false} BitsMonotone(m: nat, n: nat)
    requires m <= n
    ensures Bits(m) <= Bits(n)
    decreases n
  {
    if m > 0 {
      BitsMonotone(m / 2, n / 2);
    }
  }

  /** At most one probe per binary digit of the searched length. */
  lemma {:induction false} BSearchProbeCount(a: seq<int>, size: int -> int, max: int, low: nat, high: nat)
    requires low <= high <= |a|
    ensures |Probed(a, size, max, low, high)| <= Bits(high - low)
    decreases high - low
  {
    if low == high {
      assert Probed(a, size, max, low, high) == [];
    } else {
      var next := Narrow(a, size, max, low, high);
      assert |Probed(a, size, max, low, high)| == 1 + |Probed(a, size, max, next.0, next.1)|;
      BSearchProbeCount(a, size, max, next.0, next.1);
      NarrowHalves(a, size, max, low, high);
    }
  }

  /** The part left after a probe has one binary digit less. */
  lemma NarrowHalves(a: seq<int>, size: int -> int, max: int, low: nat, high: nat)
    requires low < high <= |a|
    ensures var next := Narrow(a, size, max, low, high);
      1 + Bits(next.1 - next.0) <= Bits(high - low)
  {
    var next := Narrow(a, size, max, low, high);
    BitsStep(high - low, next.1 - next.0);
  }

  /** Halving the length drops one binary digit. */
  lemma BitsStep(n: nat, r: nat)
    requires n > 0 && (r == n / 2 || r == n - n / 2 - 1)
    ensures 1 + Bits(r) <= Bits(n)
  {
    BitsMonotone(r, n / 2);
  }

  /** On the array of a range, every probe lies in the searched part of it. */
  lemma {:induction false} BSearchProbesInRange(a: seq<int>, size: int -> int, max: int, low: nat, high: nat, base: int)
    requires low <= high <= |a|
    requires forall i :: 0 <= i < |a| ==> a[i] == base + i
    ensures forall k :: 0 <= k < |Probed(a, size, max, low, high)| ==>
      base + low <= Probed(a, size, max, low, high)[k] < base + high
    decreases high - low
  {
    if low < high {
      var mid := low + (high - low) / 2;
      var next := Narrow(a, size, max, low, high);
      var rest := Probed(a, size, max, next.0, next.1);
      assert Probed(a, size, max, low, high) == [a[mid]] + rest;
      assert low <= mid < high && a[mid] == base + mid;
      BSearchProbesInRange(a, size, max, next.0, next.1, base);
      ProbesOfStep(Probed(a, size, max, low, high), a[mid], rest, base + low, base + high);
    }
  }

  lemma ProbesOfStep(probes: seq<int>, first: int, rest: seq<int>, lo: int, hi: int)
    requires probes == [first] + rest && lo <= first < hi
    requires forall k :: 0 <= k < |rest| ==> lo <= rest[k] < hi
    ensures forall k :: 0 <= k < |probes| ==> lo <= probes[k] < hi
  {
    forall k | 0 <= k < |probes| ensures lo <= probes[k] < hi {
      if k > 0 {
        assert probes[k] == rest[k - 1];
      }
    }
  }

  /** When the block holds on the last element, the search always finds an
      index: a search that has never been satisfied still has the whole
      right end of the array ahead of it. */
  lemma {:induction false} BSearchFinds(a: seq<int>, size: int -> int, max: int, low: nat, high: nat, satisfied: bool)
    requires low <= high <= |a| && |a| > 0 && size(a[|a| - 1]) >= max
    requires satisfied ==> high < |a| && size(a[high]) >= max
    requires !satisfied ==> high == |a| && low < high
    ensures BSearch(a, size, max, low, high, satisfied).Some?
    decreases high - low
  {
    if low < high {
      var next := Narrow(a, size, max, low, high);
      BSearchFinds(a, size, max, next.0, next.1, satisfied || next.1 < high);
    }
  }

  /** With a block that, once it holds, holds on the rest of the array, the
      search ends on the first index where it holds. */
  lemma {:induction false} BSearchFirst(a: seq<int>, size: int -> int, max: int, low: nat, high: nat, satisfied: bool)
    requires low <= high <= |a|
    requires forall i, j :: 0 <= i <= j < |a| && size(a[i]) >= max ==> size(a[j]) >= max
    requires forall i :: 0 <= i < low ==> size(a[i]) < max
    requires satisfied <==> high < |a|
    requires satisfied ==> size(a[high]) >= max
    ensures BSearch(a, size, max, low, high, satisfied).Some? ==>
      forall i :: 0 <= i < BSearch(a, size, max, low, high, satisfied).value ==> size(a[i]) < max
    ensures BSearch(a, size, max, low, high, satisfied).None? ==> forall i :: 0 <= i < |a| ==> size(a[i]) < max
    decreases high - low
  {
    if low < high {
      var next := Narrow(a, size, max, low, high);
      var sat := satisfied || next.1 < high;
      assert BSearch(a, size, max, low, high, satisfied) == BSearch(a, size, max, next.0, next.1, sat);
      BSearchFirst(a, size, max, next.0, next.1, sat);
    }
  }

  /** Size grows with quality over lo..hi. */
  ghost predicate Monotone(size: int -> int, lo: int, hi: int) {
    forall p, q :: lo <= p <= q <= hi ==> size(p) <= size(q)
  }

  /** A top quality within the budget is taken after that one probe. */
  lemma TopFits(lo: int, hi: int, max: int, size: int -> int)
    requires size(hi) <= max
    ensures QSearch(lo, hi, max, size) == Search(hi, [hi])
  {
  }

  /** On a non-empty range the answer is in the range, the first probe is the
      top, and at most 1 + Bits(hi - lo + 1) qualities are tried, each in the
      range. When the top is over the budget, the bisection always finds a
      quality (the fallback to the bottom of the range is never taken), and
      the chosen quality's file reaches the budget. */
  lemma QSearchBounds(lo: int, hi: int, max: int, size: int -> int)
    requires lo <= hi
    ensures var s := QSearch(lo, hi, max, size);
      && lo <= s.result <= hi
      && 1 <= |s.probes| <= 1 + Bits(hi - lo + 1) && s.probes[0] == hi
      && (forall k :: 0 <= k < |s.probes| ==> lo <= s.probes[k] <= hi)
      && (size(hi) > max ==> size(s.result) >= max)
  {
    if size(hi) > max {
      var a := Span(lo, hi);
      BSearchFinds(a, size, max, 0, |a|, false);
      BSearchProbeCount(a, size, max, 0, |a|);
      BSearchProbesInRange(a, size, max, 0, |a|, lo);
      var s := QSearch(lo, hi, max, size);
      assert s.probes[1..] == Probed(a, size, max, 0, |a|);
    }
  }

  /** When size grows with quality and the top is over the budget, qsearch
      returns the smallest quality whose file reaches the budget: at or above
      it, never the largest quality under it. */
  lemma QSearchSmallest(lo: int, hi: int, max: int, size: int -> int)
    requires lo <= hi && size(hi) > max && Monotone(size, lo, hi)
    ensures var q := QSearch(lo, hi, max, size).result;
      && lo <= q <= hi && size(q) >= max
      && forall p :: lo <= p < q ==> size(p) < max
  {
    var a := Span(lo, hi);
    var found := BSearch(a, size, max, 0, |a|, false);
    assert found.Some? by {
      BSearchFinds(a, size, max, 0, |a|, false);
    }
    assert forall i :: 0 <= i < found.value ==> size(a[i]) < max by {
      forall i, j | 0 <= i <= j < |a| && size(a[i]) >= max ensures size(a[j]) >= max {
        assert size(a[i]) <= size(a[j]);
      }
      BSearchFirst(a, size, max, 0, |a|, false);
    }
    assert QSearch(lo, hi, max, size).result == a[found.value];
    forall p | lo <= p < a[found.value] ensures size(p) < max {
      assert a[p - lo] == p;
    }
  }

  /** The driver's search: qualities 18 to 36, a budget of 180 (kilobytes). */
  const MinQuality: int := 18
  const MaxQuality: int := 36
  const SizeBudget: int := 180

  /** The k-th width `(200..2000).step(200)` visits. */
  function Width(k: int): int {
    200 * (k + 1)
  }

  /** The widths visited, in order. */
  function Widths(): (ws: seq<int>)
    ensures |ws| == 10 && forall k :: 0 <= k < 10 ==> ws[k] == Width(k)
  {
    seq(10, Width)
  }

  /** They are the multiples of 200 from 200 to 2000. */
  lemma WidthsAre(w: int)
    ensures w in Widths() <==> 200 <= w <= 2000 && w % 200 == 0
  {
    if 200 <= w <= 2000 && w % 200 == 0 {
      assert Widths()[w / 200 - 1] == w;
    }
  }

  /** Where `pat` first occurs in `s`. */
  function Find(s: string, pat: string): (r: Option<nat>)
    ensures r.Some? ==> r.value + |pat| <= |s| && s[r.value..r.value + |pat|] == pat
    decreases |s|
  {
    if pat <= s then Some(0)
    else if s == [] then None
    else match Find(s[1..], pat)
      case None => None
      case Some(i) => Some(i + 1)
  }

  /** Find agrees with Contains and finds the first occurrence. */
  lemma {:induction false} FindFirst(s: string, pat: string)
    ensures Find(s, pat).Some? <==> Contains(s, pat)
    ensures Find(s, pat).Some? ==> forall j :: 0 <= j < Find(s, pat).value ==> !(pat <= s[j..])
    decreases |s|
  {
    if !(pat <= s) && s != [] {
      FindFirst(s[1..], pat);
      if Find(s, pat).Some? {
        forall j | 0 <= j < Find(s, pat).value ensures !(pat <= s[j..]) {
          if j > 0 {
            assert s[j..] == s[1..][j - 1..];
          }
        }
      }
    }
  }

  /** Ruby's `String#sub` with a plain string: the first occurrence replaced. */
  function Sub(s: string, pat: string, rep: string): (r: string)
    ensures !Contains(s, pat) ==> r == s
    ensures Contains(s, pat) ==> |r| == |s| - |pat| + |rep|
  {
    FindFirst(s, pat);
    match Find(s, pat)
    case None => s
    case Some(i) => s[..i] + rep + s[i + |pat|..]
  }

  /** What one width of one picture does: the files it writes, the quality
      qsearch chose, and the qualities `compress` ran at, in order. */
  datatype Job = Job(fullsize: string, width: int, resized: string, tmp: string,
                     quality: int, compressions: seq<int>)

  /** The script's steps for one picture and width: probe during qsearch,
      then compress once more at the chosen quality when the last probe was
      at another one. */
  function JobSpec(fullsize: string, width: int, size: (string, int, int) -> int): (j: Job)
    ensures j.fullsize == fullsize && j.width == width
    ensures j.compressions != [] && j.compressions[|j.compressions| - 1] == j.quality
  {
    var s := QSearch(MinQuality, MaxQuality, SizeBudget, q => size(fullsize, width, q));
    var lastQ := if s.probes == [] then None else Some(s.probes[|s.probes| - 1]);
    Job(fullsize, width,
        Sub(fullsize, "-fullsize.", "-" + FormatInt(width) + "."),
        Sub(fullsize, "-fullsize.jpg", "-tmp.jpg"),
        s.result,
        s.probes + (if lastQ != Some(s.result) then [s.result] else []))
  }

  predicate IsBubbles(path: string) {
    Contains(path, "bubbles")
  }

  /** The jobs for the given pictures, in the script's order. */
  function Jobs(paths: seq<string>, size: (string, int, int) -> int): seq<Job> {
    if paths == [] then []
    else
      var path := paths[|paths| - 1];
      Jobs(paths[..|paths| - 1], size)
        + (if IsBubbles(path) then PictureJobs(path, size) else [])
  }

  /** The jobs for one picture, one per width. */
  function PictureJobs(path: string, size: (string, int, int) -> int): seq<Job> {
    seq(10, k => JobSpec(path, Width(k), size))
  }

  /** The script's outer loop: the full-size pictures whose path mentions bubbles. */
  method ResizeAll(paths: seq<string>, size: (string, int, int) -> int) returns (jobs: seq<Job>)
    ensures jobs == Jobs(paths, size)
  {
    jobs := [];
    var i := 0;
    while i < |paths|
      invariant 0 <= i <= |paths|
      invariant jobs == Jobs(paths[..i], size)
    {
      var path := paths[i];
      assert paths[..i + 1][..i] == paths[..i];
      if IsBubbles(path) {
        var more := ResizePicture(path, size);
        jobs := jobs + more;
      }
      i := i + 1;
    }
    assert paths[..|paths|] == paths;
  }

  /** The script's inner loop: every width of one picture. */
  method ResizePicture(path: string, size: (string, int, int) -> int) returns (jobs: seq<Job>)
    ensures jobs == PictureJobs(path, size)
  {
    ghost var all := PictureJobs(path, size);
    jobs := [];
    for k := 0 to 10
      invariant jobs == all[..k]
    {
      var job := ResizeWidth(path, Width(k), size);
      TakeOneMore(all, k);
      jobs := jobs + [job];
    }
    assert all[..10] == all;
  }

  lemma TakeOneMore<T>(s: seq<T>, k: nat)
    requires k < |s|
    ensures s[..k + 1] == s[..k] + [s[k]]
  {
  }

  /** The body of the inner loop: name the files, search for the quality
      with `compress` as the block (which remembers the last quality it was
      given), and compress again at the chosen quality if that was not the
      last one. */
  method ResizeWidth(path: string, width: int, size: (string, int, int) -> int) returns (job: Job)
    ensures job == JobSpec(path, width, size)
  {
    var resized := Sub(path, "-fullsize.", "-" + FormatInt(width) + ".");
    var tmp := Sub(path, "-fullsize.jpg", "-tmp.jpg");
    var s := QSearch(MinQuality, MaxQuality, SizeBudget, q => size(path, width, q));
    var lastQ, compressions := RunProbes(s.probes);
    if lastQ != Some(s.result) {
      compressions := compressions + [s.result];
    }
    job := Job(path, width, resized, tmp, s.result, compressions);
  }

  /** The block handed to qsearch, called once per probe: it records the
      quality as the last one seen and runs `compress` at it. */
  method RunProbes(probes: seq<int>) returns (lastQ: Option<int>, compressions: seq<int>)
    ensures compressions == probes
    ensures lastQ == if probes == [] then None else Some(probes[|probes| - 1])
  {
    lastQ := None;
    compressions := [];
    var k := 0;
    while k < |probes|
      invariant 0 <= k <= |probes|
      invariant compressions == probes[..k]
      invariant lastQ == if k == 0 then None else Some(probes[k - 1])
    {
      lastQ := Some(probes[k]);
      compressions := compressions + [probes[k]];
      k := k + 1;
    }
    assert probes[..k] == probes;
  }

  /** The pictures the script resizes: those whose path mentions bubbles, in order. */
  function Bubbles(paths: seq<string>): (r: seq<string>)
    ensures forall p :: p in r ==> p in paths && IsBubbles(p)
  {
    if paths == [] then []
    else
      var path := paths[|paths| - 1];
      Bubbles(paths[..|paths| - 1]) + (if IsBubbles(path) then [path] else [])
  }

  /** The jobs are the ten widths, in increasing order, of each picture of
      bubbles in turn. */
  lemma {:induction false} JobsLayout(paths: seq<string>, size: (string, int, int) -> int)
    ensures |Jobs(paths, size)| == 10 * |Bubbles(paths)|
    ensures forall m, k :: 0 <= m < |Bubbles(paths)| && 0 <= k < 10 ==>
      Jobs(paths, size)[10 * m + k] == JobSpec(Bubbles(paths)[m], Width(k), size)
    decreases |paths|
  {
    if paths != [] {
      var init := paths[..|paths| - 1];
      JobsLayout(init, size);
      var path := paths[|paths| - 1];
      JobsSnoc(paths, size);
      var f := (p, k) => JobSpec(p, Width(k), size);
      var js, b := Jobs(paths, size), Bubbles(paths);
      if IsBubbles(path) {
        var more := PictureJobs(path, size);
        assert forall k :: 0 <= k < 10 ==> more[k] == f(path, k);
        LayoutSnoc(Jobs(init, size), Bubbles(init), more, path, f);
        assert js == Jobs(init, size) + more && b == Bubbles(init) + [path];
      } else {
        assert js == Jobs(init, size) && b == Bubbles(init);
      }
      forall m, k | 0 <= m < |b| && 0 <= k < 10 ensures js[10 * m + k] == JobSpec(b[m], Width(k), size) {
        assert js[10 * m + k] == f(b[m], k);
      }
    }
  }

  /** Appending the ten entries of one more key keeps a sequence laid out
      as ten consecutive entries per key. */
  lemma LayoutSnoc<T>(js: seq<T>, keys: seq<string>, more: seq<T>, key: string, f: (string, int) -> T)
    requires |js| == 10 * |keys| && |more| == 10
    requires forall m, k :: 0 <= m < |keys| && 0 <= k < 10 ==> js[10 * m + k] == f(keys[m], k)
    requires forall k :: 0 <= k < 10 ==> more[k] == f(key, k)
    ensures |js + more| == 10 * |keys + [key]|
    ensures forall m, k :: 0 <= m < |keys + [key]| && 0 <= k < 10 ==>
      (js + more)[10 * m + k] == f((keys + [key])[m], k)
  {
    var js', keys' := js + more, keys + [key];
    forall m, k | 0 <= m < |keys'| && 0 <= k < 10
      ensures js'[10 * m + k] == f(keys'[m], k)
    {
      if m < |keys| {
        assert js'[10 * m + k] == js[10 * m + k] && keys'[m] == keys[m];
      } else {
        assert js'[10 * m + k] == more[k] && keys'[m] == key;
      }
    }
  }

  /** Jobs and Bubbles after one more path. */
  lemma JobsSnoc(paths: seq<string>, size: (string, int, int) -> int)
    requires paths != []
    ensures var path := paths[|paths| - 1];
      && Jobs(paths, size) == Jobs(paths[..|paths| - 1], size)
           + (if IsBubbles(path) then PictureJobs(path, size) else [])
      && Bubbles(paths) == Bubbles(paths[..|paths| - 1]) + (if IsBubbles(path) then [path] else [])
  {
  }

  /** Every job belongs to a picture of bubbles and one of the ten widths;
      the resized file is last compressed at the chosen quality, which lies
      in 18..36; and at most seven compressions run per width. */
  lemma {:induction false} JobsFacts(paths: seq<string>, size: (string, int, int) -> int)
    ensures forall j :: j in Jobs(paths, size) ==>
      && IsBubbles(j.fullsize) && j.fullsize in paths && j.width in Widths()
      && JobFacts(j)
    decreases |paths|
  {
    if paths != [] {
      var path := paths[|paths| - 1];
      JobsFacts(paths[..|paths| - 1], size);
      forall k | 0 <= k < 10 ensures JobFacts(JobSpec(path, Width(k), size)) {
        JobSpecFacts(path, Width(k), size);
      }
    }
  }

  /** The resized file ends compressed at the chosen quality, which lies in
      18..36, after at most seven compressions. */
  predicate JobFacts(j: Job) {
    && |j.compressions| <= 7 && j.compressions != [] && j.compressions[|j.compressions| - 1] == j.quality
    && MinQuality <= j.quality <= MaxQuality
  }

  lemma JobSpecFacts(fullsize: string, width: int, size: (string, int, int) -> int)
    ensures JobFacts(JobSpec(fullsize, width, size))
  {
    QSearchBounds(MinQuality, MaxQuality, SizeBudget, q => size(fullsize, width, q));
    assert Bits(19) == 5;
  }

  /** For a picture named `<stem>-fullsize.jpg` with no `.` in its stem, the
      resized file is `<stem><w>.jpg`, where `w` is `-<width>`. */
  lemma ResizedName(stem: string, w: string)
    requires '.' !in stem
    ensures Sub(stem + "-fullsize.jpg", "-fullsize.", w + ".") == stem + w + ".jpg"
  {
    SubMarker(stem, "-fullsize", "jpg", w);
    Literals(stem, w);
  }

  /** ... and the scratch file `<stem>-tmp.jpg`. */
  lemma ScratchName(stem: string)
    requires '.' !in stem
    ensures Sub(stem + "-fullsize.jpg", "-fullsize.jpg", "-tmp.jpg") == stem + "-tmp.jpg"
  {
    var mark := "-fullsize";
    SubMarker(stem, mark, "jpg", "-tmp");
    Literals(stem, "-tmp");
  }

  /** The file names above, regrouped. */
  lemma Literals(stem: string, w: string)
    ensures "-fullsize" + "." == "-fullsize."
    ensures "-fullsize" + "." + "jpg" == "-fullsize.jpg"
    ensures stem + "-fullsize" + "." + "jpg" == stem + "-fullsize.jpg"
    ensures stem + w + "." + "jpg" == stem + w + ".jpg"
    ensures "-tmp" + "." + "jpg" == "-tmp.jpg"
  {
    assert stem + "-fullsize" + "." + "jpg" == stem + ("-fullsize" + "." + "jpg");
    assert stem + w + "." + "jpg" == stem + w + ("." + "jpg");
  }

  /** In `<stem><mark>.<ext>`, with no `.` before the one after `mark`, both
      `<mark>.` and `<mark>.<ext>` are found right after the stem. */
  lemma SubMarker(stem: string, mark: string, ext: string, rep: string)
    requires '.' !in stem && '.' !in mark
    ensures Sub(stem + mark + "." + ext, mark + ".", rep + ".") == stem + rep + "." + ext
    ensures Sub(stem + mark + "." + ext, mark + "." + ext, rep + "." + ext) == stem + rep + "." + ext
  {
    var short, long := mark + ".", mark + "." + ext;
    NoDotBefore(stem, short, ext, |mark|);
    NoDotBefore(stem, long, [], |mark|);
    SubAfter(stem, short, ext, rep + ".");
    SubAfter(stem, long, [], rep + "." + ext);
    Regroup(stem, mark, ".", ext);
    Regroup(stem, rep, ".", ext);
  }

  lemma Regroup(a: string, b: string, c: string, d: string)
    ensures a + (b + c) + d == a + b + c + d
    ensures a + (b + c + d) + [] == a + b + c + d
  {
    assert a + (b + c + d) == a + b + c + d;
  }

  /** `sub` replaces a pattern that does not occur before the end of `stem`. */
  lemma SubAfter(stem: string, pat: string, tail: string, rep: string)
    requires forall j :: 0 <= j < |stem| ==> !(pat <= (stem + pat + tail)[j..])
    ensures Sub(stem + pat + tail, pat, rep) == stem + rep + tail
  {
    var path := stem + pat + tail;
    assert path[|stem|..] == pat + tail;
    FindAt(path, pat, |stem|);
    assert path[..|stem|] == stem;
    assert path[|stem| + |pat|..] == tail;
  }

  /** A pattern whose first `.` is at m cannot start inside a stem without `.`. */
  lemma NoDotBefore(stem: string, pat: string, tail: string, m: nat)
    requires '.' !in stem
    requires m < |pat| && pat[m] == '.' && forall k :: 0 <= k < m ==> pat[k] != '.'
    ensures forall j :: 0 <= j < |stem| ==> !(pat <= (stem + pat + tail)[j..])
  {
    var path := stem + pat + tail;
    forall j | 0 <= j < |stem| ensures !(pat <= path[j..]) {
      if j + m < |stem| {
        assert path[j + m] == stem[j + m];
      } else {
        assert path[j + m] == pat[j + m - |stem|];
      }
      assert path[j..][m] == path[j + m] != pat[m];
    }
  }

  /** A pattern that occurs at i and at no earlier index is found at i. */
  lemma FindAt(s: string, pat: string, i: nat)
    requires i <= |s| && pat <= s[i..]
    requires forall j :: 0 <= j < i ==> !(pat <= s[j..])
    ensures Find(s, pat) == Some(i)
  {
    ContainsFrom(s, pat, i);
    FindFirst(s, pat);
    var k := Find(s, pat).value;
    assert pat <= s[k..] by {
      assert s[k..][..|pat|] == s[k..k + |pat|];
    }
  }

  lemma {:induction false} ContainsFrom(s: string, pat: string, i: nat)
    requires i <= |s| && pat <= s[i..]
    ensures Contains(s, pat)
    decreases i
  {
    if i > 0 {
      assert s[1..][i - 1..] == s[i..];
      ContainsFrom(s[1..], pat, i - 1);
    }
  }
}
