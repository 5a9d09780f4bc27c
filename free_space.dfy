/** Platform storage logic of store/store_darwin.go and store/store_linux.go:
    the free-space readings parsed from `df` and `free -b`, the default
    headroom constants and the teardown sequence with its `rm -r` guard. */
module FreeSpace {
  import opened Common
  import StoreCodes

  /** Three secrets' worth of room, code and newline included. */
  const DarwinDefaultHeadroom: int := (StoreCodes.DefaultMaxSecretSize + StoreCodes.CodeByteSize + 1) * 3
  /** 30 MiB of system memory is kept free on Linux. */
  const LinuxDefaultHeadroom: int := 1024 * 1024 * 30

  lemma HeadroomValues()
    ensures DarwinDefaultHeadroom == 49191
    ensures LinuxDefaultHeadroom == 31457280
  {
  }

  /** What freeSpace returns: Go's (int, error) pair. */
  datatype Reading = Reading(value: int, failed: bool)

  /** The external command's combined output, or its failure. */
  datatype CommandResult = Output(out: seq<byte>) | CommandFailed

  /** freeSpace either returns or panics on `matches[2]` when there are one or two matches. */
  datatype Parse = Returned(reading: Reading) | IndexOutOfRange

  /** `\s` in Go's regexp syntax: tab, newline, form feed, carriage return, space. */
  predicate IsReSpace(b: byte) {
    b == 9 || b == 10 || b == 12 || b == 13 || b == 32
  }

  predicate IsDigit(b: byte) {
    48 <= b <= 57
  }

  predicate AllDigits(s: seq<byte>) {
    forall k :: 0 <= k < |s| ==> IsDigit(s[k])
  }

  /** End of the longest run of digits starting at i. */
  function DigitRunEnd(s: seq<byte>, i: nat): (j: nat)
    requires i <= |s|
    ensures i <= j <= |s|
    ensures forall k :: i <= k < j ==> IsDigit(s[k])
    ensures j == |s| || !IsDigit(s[j])
    decreases |s| - i
  {
    if i < |s| && IsDigit(s[i]) then DigitRunEnd(s, i + 1) else i
  }

  /** End of the match of `\s\d+\s` that starts at i, if there is one. `\d+` is
      greedy and the next character must be a space, so the run is maximal. */
  function MatchAt(s: seq<byte>, i: nat): (r: Option<nat>)
    requires i <= |s|
    ensures r.Some? ==> i + 3 <= r.value <= |s|
  {
    if i < |s| && IsReSpace(s[i]) then
      var j := DigitRunEnd(s, i + 1);
      if j > i + 1 && j < |s| && IsReSpace(s[j]) then Some(j + 1) else None
    else None
  }

  /** `FindAll(s, -1)` from position `from`: leftmost, non-overlapping matches,
      each search resuming right after the previous match. */
  function FindAll(s: seq<byte>, from: nat): (ms: seq<seq<byte>>)
    requires from <= |s|
    ensures forall k :: 0 <= k < |ms| ==> IsMatch(ms[k])
    decreases |s| - from
  {
    if from == |s| then []
    else match MatchAt(s, from)
      case Some(end) =>
        assert IsMatch(s[from..end]) by {
          assert forall k :: 1 <= k < end - from - 1 ==> s[from..end][k] == s[from + k];
        }
        [s[from..end]] + FindAll(s, end)
      case None => FindAll(s, from + 1)
  }

  /** A string matched by `\s\d+\s`. */
  predicate IsMatch(m: seq<byte>) {
    |m| >= 3 && IsReSpace(m[0]) && IsReSpace(m[|m| - 1]) && AllDigits(m[1..|m| - 1])
  }

  /** Decimal value of a digit string, as `strconv.ParseInt(_, 10, _)` reads it. */
  function ParseDigits(s: seq<byte>): (n: nat)
    requires AllDigits(s)
  {
    if s == [] then 0 else ParseDigits(s[..|s| - 1]) * 10 + (s[|s| - 1] as int - 48)
  }

  /** The digits `strings.TrimSpace` leaves of a match. */
  lemma TrimMatch(m: seq<byte>)
    requires IsMatch(m)
    ensures StoreCodes.TrimSpace(m) == m[1..|m| - 1]
  {
    var inner := m[1..|m| - 1];
    assert StoreCodes.IsSpaceByte(m[0]);
    assert !StoreCodes.IsSpaceByte(m[1]);
    assert StoreCodes.TrimLeft(m) == StoreCodes.TrimLeft(m[1..]);
    assert StoreCodes.TrimLeft(m[1..]) == m[1..];
    assert m[1..][..|m| - 2] == inner;
    assert StoreCodes.TrimRight(m[1..]) == StoreCodes.TrimRight(inner);
    assert inner[|inner| - 1] == m[|m| - 2];
  }

  /** The number in the third match, or None when `ParseInt` would report
      that it does not fit in 64 bits. */
  function ThirdNumber(ms: seq<seq<byte>>): (r: Option<int>)
    requires |ms| >= 3 && IsMatch(ms[2])
    ensures r.Some? ==> 0 <= r.value <= Int64Max
  {
    TrimMatch(ms[2]);
    var n := ParseDigits(StoreCodes.TrimSpace(ms[2]));
    if n > Int64Max then None else Some(n)
  }

  /** freeSpace on Mac OS X: the third number of `df` output counts free
      512-byte blocks; `int(freeBlocks) * 512` wraps around in Go's int. */
  function DarwinFreeSpace(df: CommandResult): (p: Parse)
    ensures df.CommandFailed? ==> p == Returned(Reading(-1, true))
    ensures df.Output? && FindAll(df.out, 0) == [] ==> p == Returned(Reading(-1, false))
    ensures df.Output? && 0 < |FindAll(df.out, 0)| < 3 ==> p == IndexOutOfRange
    ensures df.Output? && |FindAll(df.out, 0)| >= 3 ==>
      var n := ThirdNumber(FindAll(df.out, 0));
      p == Returned(if n.None? then Reading(-1, true) else Reading(Wrap64(n.value * 512), false))
  {
    match df
    case CommandFailed => Returned(Reading(-1, true))
    case Output(out) =>
      var ms := FindAll(out, 0);
      if ms == [] then Returned(Reading(-1, false))
      else if |ms| < 3 then IndexOutOfRange
      else match ThirdNumber(ms)
        case None => Returned(Reading(-1, true))
        case Some(blocks) => Returned(Reading(Wrap64(blocks * 512), false))
  }

  /** freeSpace on Linux: the third number of `free -b` output, in bytes. */
  function LinuxFreeSpace(free: CommandResult): (p: Parse)
    ensures free.CommandFailed? ==> p == Returned(Reading(-1, true))
    ensures free.Output? && FindAll(free.out, 0) == [] ==> p == Returned(Reading(-1, false))
    ensures free.Output? && 0 < |FindAll(free.out, 0)| < 3 ==> p == IndexOutOfRange
    ensures free.Output? && |FindAll(free.out, 0)| >= 3 ==>
      var n := ThirdNumber(FindAll(free.out, 0));
      p == Returned(if n.None? then Reading(-1, true) else Reading(n.value, false))
  {
    match free
    case CommandFailed => Returned(Reading(-1, true))
    case Output(out) =>
      var ms := FindAll(out, 0);
      if ms == [] then Returned(Reading(-1, false))
      else if |ms| < 3 then IndexOutOfRange
      else match ThirdNumber(ms)
        case None => Returned(Reading(-1, true))
        case Some(bytes) => Returned(Reading(bytes, false))
  }

  /** Decimal digits of n, without leading zeros. */
  function DigitBytes(n: nat): (s: seq<byte>)
    ensures s != [] && AllDigits(s)
    decreases n
  {
    if n < 10 then [(48 + n) as byte] else DigitBytes(n / 10) + [(48 + n % 10) as byte]
  }

  lemma {:induction false} ParseDigitBytes(n: nat)
    ensures ParseDigits(DigitBytes(n)) == n
    decreases n
  {
    if n >= 10 {
      ParseDigitBytes(n / 10);
      var s := DigitBytes(n);
      assert s[..|s| - 1] == DigitBytes(n / 10);
    }
  }

  /** Matching only looks at the text from the search position on. */
  lemma {:induction false} FindAllSuffix(s: seq<byte>, from: nat)
    requires from <= |s|
    ensures FindAll(s, from) == FindAll(s[from..], 0)
    decreases |s| - from
  {
    if from < |s| {
      var t := s[from..];
      MatchAtSuffix(s, from, from);
      match MatchAt(s, from)
      case Some(end) =>
        FindAllSuffix(s, end);
        FindAllSuffix(t, end - from);
        assert t[end - from..] == s[end..];
        assert t[0..end - from] == s[from..end];
      case None =>
        FindAllSuffix(s, from + 1);
        FindAllSuffix(t, 1);
        assert t[1..] == s[from + 1..];
    }
  }

  lemma MatchAtSuffix(s: seq<byte>, from: nat, i: nat)
    requires from <= i <= |s|
    ensures var r := MatchAt(s[from..], i - from);
      MatchAt(s, i) == if r.None? then None else Some(r.value + from)
  {
    var t := s[from..];
    if i < |s| && IsReSpace(s[i]) {
      DigitRunShift(s, from, i + 1);
    }
  }

  lemma {:induction false} DigitRunShift(s: seq<byte>, from: nat, i: nat)
    requires from <= i <= |s|
    ensures DigitRunEnd(s, i) == DigitRunEnd(s[from..], i - from) + from
    decreases |s| - i
  {
    if i < |s| && IsDigit(s[i]) {
      DigitRunShift(s, from, i + 1);
    }
  }

  /** A space, a number and a space at the front are matched, and the search
      resumes right after that second space. */
  lemma LeadingMatch(d: seq<byte>, rest: seq<byte>)
    requires d != [] && AllDigits(d)
    ensures FindAll([32 as byte] + d + [32 as byte] + rest, 0) == [[32 as byte] + d + [32 as byte]] + FindAll(rest, 0)
  {
    var s := [32 as byte] + d + [32 as byte] + rest;
    DigitRunFrom(s, 1, |d| + 1);
    assert MatchAt(s, 0) == Some(|d| + 2);
    FindAllSuffix(s, |d| + 2);
    assert s[|d| + 2..] == rest;
    assert s[0..|d| + 2] == [32 as byte] + d + [32 as byte];
  }

  lemma {:induction false} DigitRunFrom(s: seq<byte>, i: nat, j: nat)
    requires i <= j < |s|
    requires forall k :: i <= k < j ==> IsDigit(s[k])
    requires !IsDigit(s[j])
    ensures DigitRunEnd(s, i) == j
    decreases j - i
  {
    if i < j {
      DigitRunFrom(s, i + 1, j);
    }
  }

  /** A number that is not preceded by whitespace is never matched. */
  lemma DigitsThenSpaceNoMatch(d: seq<byte>)
    requires AllDigits(d)
    ensures FindAll(d + [32 as byte], 0) == []
  {
    var s := d + [32 as byte];
    NoMatchFrom(s, 0);
  }

  lemma {:induction false} NoMatchFrom(s: seq<byte>, i: nat)
    requires i <= |s| && |s| >= 1
    requires AllDigits(s[..|s| - 1])
    ensures FindAll(s, i) == []
    decreases |s| - i
  {
    if i < |s| {
      assert MatchAt(s, i) == None by {
        if i < |s| - 1 {
          assert s[..|s| - 1][i] == s[i];
        }
      }
      NoMatchFrom(s, i + 1);
    }
  }

  /** Numbers set apart by two spaces are each matched: the third one is read. */
  lemma ThreeNumbers(a: nat, b: nat, c: nat, rest: seq<byte>)
    ensures var out := [32 as byte] + DigitBytes(a) + [32, 32] + DigitBytes(b) + [32, 32] + DigitBytes(c) + [32 as byte] + rest;
      |FindAll(out, 0)| >= 3 && ThirdNumber(FindAll(out, 0)) == if c <= Int64Max then Some(c) else None
  {
    var sp: seq<byte> := [32];
    var out := sp + DigitBytes(a) + [32, 32] + DigitBytes(b) + [32, 32] + DigitBytes(c) + sp + rest;
    var third := sp + DigitBytes(c) + sp;
    ThreeMatches(DigitBytes(a), DigitBytes(b), DigitBytes(c), rest);
    var ms := FindAll(out, 0);
    assert ms[2] == third;
    TrimMatch(third);
    assert third[1..|third| - 1] == DigitBytes(c);
    ParseDigitBytes(c);
  }

  lemma ThreeMatches(a: seq<byte>, b: seq<byte>, c: seq<byte>, rest: seq<byte>)
    requires a != [] && AllDigits(a) && b != [] && AllDigits(b) && c != [] && AllDigits(c)
    ensures var sp: seq<byte> := [32];
      FindAll(sp + a + [32, 32] + b + [32, 32] + c + sp + rest, 0)
      == [sp + a + sp, sp + b + sp, sp + c + sp] + FindAll(rest, 0)
  {
    var sp: seq<byte> := [32];
    var tail3 := sp + c + sp + rest;
    var tail2 := sp + b + sp + tail3;
    assert sp + a + [32, 32] + b + [32, 32] + c + sp + rest == sp + a + sp + tail2;
    LeadingMatch(a, tail2);
    LeadingMatch(b, tail3);
    LeadingMatch(c, rest);
  }

  /** Each match consumes its trailing space, so in " a b " the second number
      has no space of its own in front: one match, and freeSpace panics. */
  lemma TwoSingleSpacedNumbers(a: nat, b: nat)
    ensures var out := [32 as byte] + DigitBytes(a) + [32 as byte] + DigitBytes(b) + [32 as byte];
      |FindAll(out, 0)| == 1 && DarwinFreeSpace(Output(out)) == IndexOutOfRange
  {
    var sp: seq<byte> := [32];
    var out := sp + DigitBytes(a) + sp + DigitBytes(b) + sp;
    assert out == sp + DigitBytes(a) + sp + (DigitBytes(b) + sp);
    LeadingMatch(DigitBytes(a), DigitBytes(b) + sp);
    DigitsThenSpaceNoMatch(DigitBytes(b));
  }

  /** In " a b c " only a and c are matched: still too few for `matches[2]`. */
  lemma ThreeSingleSpacedNumbers(a: nat, b: nat, c: nat)
    ensures var out := [32 as byte] + DigitBytes(a) + [32 as byte] + DigitBytes(b) + [32 as byte] + DigitBytes(c) + [32 as byte];
      FindAll(out, 0) == [[32 as byte] + DigitBytes(a) + [32 as byte], [32 as byte] + DigitBytes(c) + [32 as byte]]
      && DarwinFreeSpace(Output(out)) == IndexOutOfRange
  {
    SingleSpacedMatches(DigitBytes(a), DigitBytes(b), DigitBytes(c));
  }

  lemma SingleSpacedMatches(a: seq<byte>, b: seq<byte>, c: seq<byte>)
    requires a != [] && AllDigits(a) && AllDigits(b) && c != [] && AllDigits(c)
    ensures var sp: seq<byte> := [32];
      FindAll(sp + a + sp + b + sp + c + sp, 0) == [sp + a + sp, sp + c + sp]
  {
    var sp: seq<byte> := [32];
    var rest := b + (sp + c + sp + []);
    assert sp + a + sp + b + sp + c + sp == sp + a + sp + rest;
    LeadingMatch(a, rest);
    SkipDigits(rest, 0, |b|);
    FindAllSuffix(rest, |b|);
    assert rest[|b|..] == sp + c + sp + [];
    LeadingMatch(c, []);
  }

  /** No match starts inside a run of digits. */
  lemma {:induction false} SkipDigits(s: seq<byte>, i: nat, j: nat)
    requires i <= j <= |s|
    requires forall k :: i <= k < j ==> IsDigit(s[k])
    ensures FindAll(s, i) == FindAll(s, j)
    decreases j - i
  {
    if i < j {
      SkipDigits(s, i + 1, j);
    }
  }

  /** `\A/tmp/[^/]+`: only a directory directly named under /tmp may be
      removed with `rm -r`; the check looks at a prefix only. */
  predicate RemovableRoot(root: string) {
    |root| >= 6 && root[..5] == "/tmp/" && root[5] != '/'
  }

  lemma RemovableRootExamples()
    ensures RemovableRoot("/tmp/sneakynote_store")
    ensures !RemovableRoot("/") && !RemovableRoot("/tmp") && !RemovableRoot("/tmp/")
    ensures !RemovableRoot("/tmp//x") && !RemovableRoot("/var/tmp/x")
  {
    assert "/var/tmp/x"[..5][1] == 'v';
    assert "/tmp//x"[5] == '/';
  }

  /** Anything may follow the guarded prefix, so the guard does not keep
      `rm -r` inside /tmp when the root holds "..". */
  lemma RemovableRootIsPrefixCheck(root: string, more: string)
    requires RemovableRoot(root)
    ensures RemovableRoot(root + more)
  {
    assert (root + more)[..5] == root[..5];
  }

  datatype Command = Unmount | RemoveTree

  /** Teardown on either platform: unmount (`hdiutil detach -force` on Mac OS X,
      `sudo umount` on Linux), retried once after a failure, then `rm -r` of the
      root when the guard allows it. The outcomes of the commands are inputs;
      the result lists the commands run and whether Teardown returned an error. */
  method Teardown(root: string, firstUnmountOk: bool, secondUnmountOk: bool, removeOk: bool)
    returns (commands: seq<Command>, failed: bool)
    ensures 1 <= |commands| <= 3 && commands[0] == Unmount
    ensures (|commands| >= 2 && commands[1] == Unmount) <==> !firstUnmountOk
    ensures RemoveTree in commands <==> (firstUnmountOk || secondUnmountOk) && RemovableRoot(root)
    ensures failed <==> (!firstUnmountOk && !secondUnmountOk) || (RemoveTree in commands && !removeOk)
  {
    commands := [Unmount];
    var ok := firstUnmountOk;
    if !ok {
      // Sometimes the disk is busy: sleep and retry once.
      commands := commands + [Unmount];
      ok := secondUnmountOk;
    }
    if !ok {
      return commands, true;
    }
    if RemovableRoot(root) {
      commands := commands + [RemoveTree];
      if !removeOk {
        return commands, true;
      }
    }
    failed := false;
  }
}
