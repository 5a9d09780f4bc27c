/** Recognition of the note paths of handlers.go: `/notes/<id>` and
    `/notes/<id>/status`, where the id is 32 hex digits in groups of
    8, 4, 4, 4 and 12, each of the first four optionally followed by a
    hyphen; and the choice of handler by path and method. */
module HttpRoutes {
  import opened Common
  import opened StoreIds

  /** The group lengths of `[0-9a-fA-F]{8}-?[0-9a-fA-F]{4}-?...{12}`. */
  const IdGroupSizes: seq<nat> := [8, 4, 4, 4, 12]

  const NotesPrefix: string := "/notes/"

  predicate IsHexRun(s: string) {
    forall i :: 0 <= i < |s| ==> IsHexChar(s[i])
  }

  /** The hex groups of an id, whether a hyphen follows each group but the
      last, and the text after the id. */
  datatype Scan = Scan(groups: seq<string>, hyphens: seq<bool>, rest: string)

  /** The groups have the given lengths and are hex; one hyphen flag sits
      between each pair of neighbouring groups. */
  predicate Shaped(groups: seq<string>, hyphens: seq<bool>, sizes: seq<nat>) {
    && |groups| == |sizes| && |hyphens| + 1 == |sizes|
    && forall i :: 0 <= i < |sizes| ==> |groups[i]| == sizes[i] && IsHexRun(groups[i])
  }

  predicate PositiveSizes(sizes: seq<nat>) {
    forall i :: 0 <= i < |sizes| ==> sizes[i] > 0
  }

  /** The text of an id: the groups, each hyphen flag spelled as `-` or nothing. */
  function Spell(groups: seq<string>, hyphens: seq<bool>): string
    requires |groups| == |hyphens| + 1
    decreases |groups|
  {
    if |groups| == 1 then groups[0]
    else groups[0] + (if hyphens[0] then "-" else "") + Spell(groups[1..], hyphens[1..])
  }

  /** The regex engine's walk over the id part of a path: each group must be
      hex of its length, and a hyphen after a group is taken when present.
      Since `-` is not a hex digit, this walk is the only way to match. */
  function ScanGroups(s: string, sizes: seq<nat>): (r: Option<Scan>)
    requires sizes != []
    decreases |sizes|
  {
    var n := sizes[0];
    if |s| < n || !IsHexRun(s[..n]) then None
    else if |sizes| == 1 then Some(Scan([s[..n]], [], s[n..]))
    else
      var dash := n < |s| && s[n] == '-';
      var after := if dash then s[n + 1..] else s[n..];
      match ScanGroups(after, sizes[1..])
      case None => None
      case Some(sc) => Some(Scan([s[..n]] + sc.groups, [dash] + sc.hyphens, sc.rest))
  }

  /** A group in front of a well-shaped tail. */
  lemma ShapedCons(g0: string, dash: bool, groups: seq<string>, hyphens: seq<bool>, sizes: seq<nat>)
    requires |sizes| >= 2 && |g0| == sizes[0] && IsHexRun(g0) && Shaped(groups, hyphens, sizes[1..])
    ensures Shaped([g0] + groups, [dash] + hyphens, sizes)
    ensures Spell([g0] + groups, [dash] + hyphens) == g0 + (if dash then "-" else "") + Spell(groups, hyphens)
  {
    var gs := [g0] + groups;
    assert gs[1..] == groups && ([dash] + hyphens)[1..] == hyphens;
    forall i | 0 <= i < |sizes|
      ensures |gs[i]| == sizes[i] && IsHexRun(gs[i])
    {
      if i > 0 {
        assert gs[i] == groups[i - 1] && sizes[i] == sizes[1..][i - 1];
      }
    }
  }

  /** The walk, one group at a time. */
  lemma ScanStep(s: string, sizes: seq<nat>)
    requires |sizes| >= 2 && |s| >= sizes[0] && IsHexRun(s[..sizes[0]])
    ensures var n := sizes[0];
      var dash := n < |s| && s[n] == '-';
      var after := if dash then s[n + 1..] else s[n..];
      && s == s[..n] + (if dash then "-" else "") + after
      && ScanGroups(s, sizes) == match ScanGroups(after, sizes[1..])
           case None => None
           case Some(sc) => Some(Scan([s[..n]] + sc.groups, [dash] + sc.hyphens, sc.rest))
  {
    var n := sizes[0];
    if n < |s| && s[n] == '-' {
      assert s == s[..n] + [s[n]] + s[n + 1..];
    } else {
      assert s == s[..n] + s[n..];
    }
  }

  /** Whatever the walk accepts is a well-shaped id followed by the rest. */
  lemma {:induction false} ScanSound(s: string, sizes: seq<nat>)
    requires sizes != [] && ScanGroups(s, sizes).Some?
    ensures var sc := ScanGroups(s, sizes).value;
      Shaped(sc.groups, sc.hyphens, sizes) && s == Spell(sc.groups, sc.hyphens) + sc.rest
    decreases |sizes|
  {
    var n := sizes[0];
    if |sizes| > 1 {
      ScanStep(s, sizes);
      var dash := n < |s| && s[n] == '-';
      var after := if dash then s[n + 1..] else s[n..];
      ScanSound(after, sizes[1..]);
      var sc := ScanGroups(after, sizes[1..]).value;
      ShapedCons(s[..n], dash, sc.groups, sc.hyphens, sizes);
      var d: string := if dash then "-" else "";
      assert s == s[..n] + d + (Spell(sc.groups, sc.hyphens) + sc.rest);
      Regroup(s[..n], d, Spell(sc.groups, sc.hyphens), sc.rest);
    } else {
      assert s == s[..n] + s[n..];
    }
  }

  /** Every well-shaped id, followed by anything, is walked exactly as spelled. */
  lemma {:induction false} ScanComplete(groups: seq<string>, hyphens: seq<bool>, sizes: seq<nat>, rest: string)
    requires sizes != [] && PositiveSizes(sizes) && Shaped(groups, hyphens, sizes)
    ensures ScanGroups(Spell(groups, hyphens) + rest, sizes) == Some(Scan(groups, hyphens, rest))
    decreases |sizes|
  {
    var s := Spell(groups, hyphens) + rest;
    var n := sizes[0];
    if |sizes| > 1 {
      ShapedUncons(groups, hyphens, sizes);
      var d: string := if hyphens[0] then "-" else "";
      var sp := Spell(groups[1..], hyphens[1..]);
      assert |groups[1]| == sizes[1] > 0 && IsHexRun(groups[1]);
      SpellStarts(groups[1..], hyphens[1..], []);
      assert sp == sp + [];
      AfterGroup(groups[0], d, sp, rest);
      ScanStep(s, sizes);
      ScanComplete(groups[1..], hyphens[1..], sizes[1..], rest);
    } else {
      assert groups == [groups[0]] && hyphens == [];
      assert s == groups[0] + rest;
      assert s[..n] == groups[0] && s[n..] == rest;
    }
  }

  /** A well-shaped id is its first group, the first hyphen flag and the
      well-shaped id of the other groups. */
  lemma ShapedUncons(groups: seq<string>, hyphens: seq<bool>, sizes: seq<nat>)
    requires |sizes| >= 2 && Shaped(groups, hyphens, sizes)
    ensures Shaped(groups[1..], hyphens[1..], sizes[1..])
    ensures [groups[0]] + groups[1..] == groups && [hyphens[0]] + hyphens[1..] == hyphens
    ensures Spell(groups, hyphens) == groups[0] + (if hyphens[0] then "-" else "") + Spell(groups[1..], hyphens[1..])
  {
    forall i | 0 <= i < |sizes| - 1
      ensures |groups[1..][i]| == sizes[1..][i] && IsHexRun(groups[1..][i])
    {
      assert groups[1..][i] == groups[i + 1];
    }
  }

  /** Where the walk finds the hyphen flag and the next group after a group g. */
  lemma AfterGroup(g: string, d: string, sp: string, rest: string)
    requires d == "-" || d == ""
    requires sp != [] && sp[0] != '-'
    ensures var s := g + d + sp + rest;
      && |s| > |g| && s[..|g|] == g
      && (s[|g|] == '-' <==> d == "-")
      && (if d == "-" then s[|g| + 1..] else s[|g|..]) == sp + rest
  {
    var s := g + d + sp + rest;
    assert s == g + (d + (sp + rest));
    assert s[..|g|] == g;
    if d == "-" {
      assert s[|g|] == '-';
      assert s[|g| + 1..] == sp + rest;
    } else {
      assert s[|g|..] == sp + rest;
      assert s[|g|] == sp[0];
    }
  }

  lemma Regroup(a: string, b: string, c: string, d: string)
    ensures a + b + (c + d) == (a + b + c) + d
  {
  }

  lemma SpellStarts(groups: seq<string>, hyphens: seq<bool>, rest: string)
    requires |groups| == |hyphens| + 1 && groups[0] != []
    ensures (Spell(groups, hyphens) + rest)[0] == groups[0][0]
  {
  }

  /** An id the path regexes accept. */
  ghost predicate IsNoteId(id: string) {
    exists groups, hyphens :: Shaped(groups, hyphens, IdGroupSizes) && id == Spell(groups, hyphens)
  }

  /** The id after `/notes/` when the rest of the path is one of `tails`. */
  function MatchAfterId(path: string, tails: set<string>): (r: Option<string>)
    ensures r.Some? ==>
      && IsNoteId(r.value) && NotesPrefix + r.value <= path
      && path[|NotesPrefix| + |r.value|..] in tails
  {
    if NotesPrefix <= path then
      match ScanGroups(path[|NotesPrefix|..], IdGroupSizes)
      case Some(sc) =>
        ScanSound(path[|NotesPrefix|..], IdGroupSizes);
        assert IsNoteId(Spell(sc.groups, sc.hyphens));
        assert path == NotesPrefix + Spell(sc.groups, sc.hyphens) + sc.rest;
        if sc.rest in tails then Some(Spell(sc.groups, sc.hyphens)) else None
      case None => None
    else None
  }

  /** `notePathRegexp.FindStringSubmatch(path)[1]`, when the path matches. */
  function MatchNote(path: string): (r: Option<string>)
    ensures r.Some? ==>
      IsNoteId(r.value) && NotesPrefix + r.value <= path && path[|NotesPrefix| + |r.value|..] in {"", "/"}
  {
    MatchAfterId(path, {"", "/"})
  }

  /** `noteStatusPathRegexp.FindStringSubmatch(path)[1]`, when the path matches. */
  function MatchStatus(path: string): (r: Option<string>)
    ensures r.Some? ==>
      && IsNoteId(r.value) && NotesPrefix + r.value <= path
      && path[|NotesPrefix| + |r.value|..] in {"/status", "/status/"}
  {
    MatchAfterId(path, {"/status", "/status/"})
  }

  /** A path is accepted exactly when it is `/notes/`, a well-shaped id, and
      one of the allowed endings; the captured group is that id. */
  lemma MatchAfterIdSound(path: string, tails: set<string>)
    requires MatchAfterId(path, tails).Some?
    ensures exists groups, hyphens, tail ::
      && Shaped(groups, hyphens, IdGroupSizes) && tail in tails
      && MatchAfterId(path, tails).value == Spell(groups, hyphens)
      && path == NotesPrefix + Spell(groups, hyphens) + tail
  {
    var s := path[|NotesPrefix|..];
    ScanSound(s, IdGroupSizes);
    var sc := ScanGroups(s, IdGroupSizes).value;
    assert path == NotesPrefix + Spell(sc.groups, sc.hyphens) + sc.rest;
  }

  lemma MatchAfterIdComplete(groups: seq<string>, hyphens: seq<bool>, tail: string, tails: set<string>)
    requires Shaped(groups, hyphens, IdGroupSizes) && tail in tails
    ensures MatchAfterId(NotesPrefix + Spell(groups, hyphens) + tail, tails) == Some(Spell(groups, hyphens))
  {
    var path := NotesPrefix + Spell(groups, hyphens) + tail;
    assert path[|NotesPrefix|..] == Spell(groups, hyphens) + tail;
    ScanComplete(groups, hyphens, IdGroupSizes, tail);
  }

  /** The note path regex, in both directions. */
  lemma NotePathMatches(path: string)
    ensures MatchNote(path).Some? <==>
      exists id :: IsNoteId(id) && (path == NotesPrefix + id || path == NotesPrefix + id + "/")
    ensures MatchNote(path).Some? ==> IsNoteId(MatchNote(path).value)
  {
    if MatchNote(path).Some? {
      MatchAfterIdSound(path, {"", "/"});
      var groups, hyphens, tail :| Shaped(groups, hyphens, IdGroupSizes) && tail in {"", "/"}
        && MatchNote(path).value == Spell(groups, hyphens) && path == NotesPrefix + Spell(groups, hyphens) + tail;
      var id := Spell(groups, hyphens);
      assert IsNoteId(id);
      if tail == "" {
        assert path == NotesPrefix + id;
      }
    }
    if exists id :: IsNoteId(id) && (path == NotesPrefix + id || path == NotesPrefix + id + "/") {
      var id :| IsNoteId(id) && (path == NotesPrefix + id || path == NotesPrefix + id + "/");
      var groups, hyphens :| Shaped(groups, hyphens, IdGroupSizes) && id == Spell(groups, hyphens);
      var tail := if path == NotesPrefix + id then "" else "/";
      assert path == NotesPrefix + id + tail;
      MatchAfterIdComplete(groups, hyphens, tail, {"", "/"});
    }
  }

  /** The status path regex, in both directions. */
  lemma StatusPathMatches(path: string)
    ensures MatchStatus(path).Some? <==>
      exists id :: IsNoteId(id) && (path == NotesPrefix + id + "/status" || path == NotesPrefix + id + "/status/")
    ensures MatchStatus(path).Some? ==> IsNoteId(MatchStatus(path).value)
  {
    var tails := {"/status", "/status/"};
    if MatchStatus(path).Some? {
      MatchAfterIdSound(path, tails);
      var groups, hyphens, tail :| Shaped(groups, hyphens, IdGroupSizes) && tail in tails
        && MatchStatus(path).value == Spell(groups, hyphens) && path == NotesPrefix + Spell(groups, hyphens) + tail;
      var id := Spell(groups, hyphens);
      assert IsNoteId(id);
    }
    if exists id :: IsNoteId(id) && (path == NotesPrefix + id + "/status" || path == NotesPrefix + id + "/status/") {
      var id :| IsNoteId(id) && (path == NotesPrefix + id + "/status" || path == NotesPrefix + id + "/status/");
      var groups, hyphens :| Shaped(groups, hyphens, IdGroupSizes) && id == Spell(groups, hyphens);
      var tail := if path == NotesPrefix + id + "/status" then "/status" else "/status/";
      MatchAfterIdComplete(groups, hyphens, tail, tails);
    }
  }

  /** No path is both a note path and a status path, so testing the status
      regex first never hides a note path. */
  lemma RoutesDisjoint(path: string)
    ensures !(MatchNote(path).Some? && MatchStatus(path).Some?)
  {
  }

  /** The hyphens of a well-shaped id are dropped, leaving its groups. */
  lemma {:induction false} StripSpell(groups: seq<string>, hyphens: seq<bool>, sizes: seq<nat>)
    requires Shaped(groups, hyphens, sizes)
    ensures IsHexRun(StripHyphens(Spell(groups, hyphens)))
    ensures |StripHyphens(Spell(groups, hyphens))| == SumSizes(sizes)
    decreases |sizes|
  {
    StripHexRun(groups[0]);
    if |groups| > 1 {
      assert Shaped(groups[1..], hyphens[1..], sizes[1..]);
      StripSpell(groups[1..], hyphens[1..], sizes[1..]);
      var dash: string := if hyphens[0] then "-" else "";
      var tail := Spell(groups[1..], hyphens[1..]);
      StripHyphensAppend(groups[0] + dash, tail);
      StripHyphensAppend(groups[0], dash);
      assert StripHyphens(dash) == [];
      HexRunAppend(groups[0], StripHyphens(tail));
    }
  }

  function SumSizes(sizes: seq<nat>): nat {
    if sizes == [] then 0 else sizes[0] + SumSizes(sizes[1..])
  }

  lemma {:induction false} StripHexRun(s: string)
    requires IsHexRun(s)
    ensures StripHyphens(s) == s
  {
    if s != [] {
      StripHexRun(s[1..]);
    }
  }

  lemma HexRunAppend(a: string, b: string)
    requires IsHexRun(a) && IsHexRun(b)
    ensures IsHexRun(a + b)
  {
  }

  /** A run of hex digits of even length decodes. */
  lemma {:induction false} HexRunDecodes(s: string)
    requires IsHexRun(s) && |s| % 2 == 0
    ensures HexDecode(s).Some? && |HexDecode(s).value| * 2 == |s|
  {
    if s != [] {
      HexRunDecodes(s[2..]);
    }
  }

  /** Every id a note path can carry decodes to 16 bytes, so it always has a
      hashed file name: the store never sees the empty name from a request. */
  lemma RoutedIdHasFileName(sha: seq<byte> -> Digest, id: string)
    requires IsNoteId(id)
    ensures HexDecode(StripHyphens(id)).Some? && |HexDecode(StripHyphens(id)).value| == 16
    ensures UuidToFileName(sha, id) != ""
  {
    var groups, hyphens :| Shaped(groups, hyphens, IdGroupSizes) && id == Spell(groups, hyphens);
    StripSpell(groups, hyphens, IdGroupSizes);
    HexRunDecodes(StripHyphens(id));
  }

  /** The five groups of a printed UUID, hyphens between all of them. */
  lemma SpellDashed(g1: string, g2: string, g3: string, g4: string, g5: string)
    ensures Spell([g1, g2, g3, g4, g5], [true, true, true, true]) == g1 + "-" + g2 + "-" + g3 + "-" + g4 + "-" + g5
  {
    var groups := [g1, g2, g3, g4, g5];
    var hyphens := [true, true, true, true];
    assert Spell(groups[4..], hyphens[4..]) == g5;
    assert Spell(groups[3..], hyphens[3..]) == g4 + "-" + g5;
    assert Spell(groups[2..], hyphens[2..]) == g3 + "-" + (g4 + "-" + g5);
    assert Spell(groups[1..], hyphens[1..]) == g2 + "-" + (g3 + "-" + (g4 + "-" + g5));
  }

  lemma HexEncodeIsHexRun(b: seq<byte>)
    ensures IsHexRun(HexEncode(b)) && |HexEncode(b)| == 2 * |b|
  {
  }

  lemma UuidGroupsShaped(b: seq<byte>)
    requires |b| == 16
    ensures Shaped([HexEncode(b[0..4]), HexEncode(b[4..6]), HexEncode(b[6..8]), HexEncode(b[8..10]), HexEncode(b[10..16])],
                   [true, true, true, true], IdGroupSizes)
  {
    HexEncodeIsHexRun(b[0..4]);
    HexEncodeIsHexRun(b[4..6]);
    HexEncodeIsHexRun(b[6..8]);
    HexEncodeIsHexRun(b[8..10]);
    HexEncodeIsHexRun(b[10..16]);
  }

  function UuidGroups(b: seq<byte>): seq<string>
    requires |b| == 16
  {
    [HexEncode(b[0..4]), HexEncode(b[4..6]), HexEncode(b[6..8]), HexEncode(b[8..10]), HexEncode(b[10..16])]
  }

  /** A printed UUID is the spelling of its five groups with every hyphen. */
  lemma GeneratedUuidSpelled(raw: seq<byte>)
    requires |raw| == 16
    ensures var groups := UuidGroups(SetVersionAndVariant(raw));
      && Shaped(groups, [true, true, true, true], IdGroupSizes)
      && GenerateUuid(Some(raw)) == Spell(groups, [true, true, true, true])
  {
    var b := SetVersionAndVariant(raw);
    UuidGroupsShaped(b);
    SpellDashed(HexEncode(b[0..4]), HexEncode(b[4..6]), HexEncode(b[6..8]), HexEncode(b[8..10]), HexEncode(b[10..16]));
  }

  /** The ids GenerateUuid prints are note ids: a client can post to them. */
  lemma GeneratedUuidRoutes(raw: seq<byte>)
    requires |raw| == 16
    ensures IsNoteId(GenerateUuid(Some(raw)))
    ensures MatchNote(NotesPrefix + GenerateUuid(Some(raw))) == Some(GenerateUuid(Some(raw)))
  {
    var groups := UuidGroups(SetVersionAndVariant(raw));
    var hyphens := [true, true, true, true];
    GeneratedUuidSpelled(raw);
    var u := GenerateUuid(Some(raw));
    MatchAfterIdComplete(groups, hyphens, "", {"", "/"});
    assert NotesPrefix + u + "" == NotesPrefix + u;
  }

  /** Which handler `note` and `noteStatus` hand a request to. */
  datatype Action = PollStatus(id: string) | ReadNote(id: string) | CreateNote(id: string) | NotFound

  /** The status regex first, then the note regex, then the method. */
  function Dispatch(verb: string, path: string): (r: Action)
    ensures r.PollStatus? ==> verb == "GET" && MatchStatus(path) == Some(r.id)
    ensures r.ReadNote? ==> verb == "GET" && MatchNote(path) == Some(r.id)
    ensures r.CreateNote? ==> verb == "POST" && MatchNote(path) == Some(r.id)
    ensures !r.NotFound? ==> IsNoteId(r.id)
  {
    match MatchStatus(path)
    case Some(id) => if verb == "GET" then PollStatus(id) else NotFound
    case None =>
      match MatchNote(path)
      case None => NotFound
      case Some(id) =>
        if verb == "GET" then ReadNote(id)
        else if verb == "POST" then CreateNote(id)
        else NotFound
  }

  /** Note paths take GET and POST, status paths only GET; everything else
      under `/notes/` is not found; and the id handed on is the one in the path. */
  lemma DispatchCases(sha: seq<byte> -> Digest, verb: string, path: string)
    ensures var a := Dispatch(verb, path);
      && (a.PollStatus? <==> verb == "GET" && MatchStatus(path).Some?)
      && (a.ReadNote? <==> verb == "GET" && MatchNote(path).Some?)
      && (a.CreateNote? <==> verb == "POST" && MatchNote(path).Some?)
      && (a.NotFound? <==>
            !((verb == "GET" || verb == "POST") && MatchNote(path).Some?) && !(verb == "GET" && MatchStatus(path).Some?))
      && (!a.NotFound? ==> IsNoteId(a.id) && UuidToFileName(sha, a.id) != "")
  {
    RoutesDisjoint(path);
    NotePathMatches(path);
    StatusPathMatches(path);
    var a := Dispatch(verb, path);
    if !a.NotFound? {
      RoutedIdHasFileName(sha, a.id);
    }
  }

  /** A status request for an id that is not 32 hex digits is not found. */
  lemma BadIdNotFound()
    ensures Dispatch("GET", "/notes/asdf/status") == NotFound
  {
    var s := "/notes/asdf/status"[|NotesPrefix|..];
    assert s[4] == '/' && !IsHexChar(s[..8][4]);
  }
}
