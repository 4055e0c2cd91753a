/** Tag weighting and config-file selection: which files of the config directory take part
    in a resolution, with which score, and in which order they are merged. */
module Selection {
  import opened Wrappers
  import opened Text
  import opened Version
  import Xml
  import Ordering

  const VersionWeight: int := 10
  const PlatformWeight: int := 1

  /** One file of the config directory: its file name and its parsed document. */
  datatype ConfigFile = ConfigFile(name: string, root: Xml.Node)

  /** An eligible file with its score. */
  datatype Candidate = Candidate(file: ConfigFile, score: int)

  /** The tag-weight table: 10 for each version tag, 1 for the lower-cased platform name;
      adding the platform fails when a version tag already has its name. */
  function Weights(version: string, platform: string): Result<map<string, int>, Error> {
    var p := ToLower(platform);
    if p in VersionTags(version) then Err(DuplicateKey(p))
    else Ok((map t | t in VersionTags(version) :: VersionWeight)[p := PlatformWeight])
  }

  /** The table the version loop builds from the first `n` pieces: each non-blank piece,
      trimmed and lower-cased, set to the version weight, in order. */
  function PieceMap(pieces: seq<string>, n: nat): map<string, int>
    requires n <= |pieces|
  {
    if n == 0 then map[]
    else
      var m := PieceMap(pieces, n - 1);
      var ver := Trim(pieces[n - 1]);
      if ver != "" then m[ToLower(ver) := VersionWeight] else m
  }

  /** Every entry of the loop's table has the version weight. */
  lemma {:induction false} PieceMapWeights(pieces: seq<string>, n: nat)
    requires n <= |pieces|
    ensures forall t :: t in PieceMap(pieces, n) ==> PieceMap(pieces, n)[t] == VersionWeight
  {
    if n > 0 {
      PieceMapWeights(pieces, n - 1);
    }
  }

  /** One more piece adds its tag to both the loop's table and the tag set. */
  lemma PieceMapKeysStep(pieces: seq<string>, n: nat)
    requires 0 < n <= |pieces|
    requires PieceMap(pieces, n - 1).Keys == PieceTags(pieces[..n - 1])
    ensures PieceMap(pieces, n).Keys == PieceTags(pieces[..n])
  {
    var m := PieceMap(pieces, n - 1);
    var ver := Trim(pieces[n - 1]);
    var added: set<string> := if ver != "" then {ToLower(ver)} else {};
    assert PieceMap(pieces, n).Keys == m.Keys + added by {
      if ver != "" {
        assert PieceMap(pieces, n) == m[ToLower(ver) := VersionWeight];
      }
    }
    PieceTagsSnoc(pieces, n - 1);
  }

  /** The loop's table holds exactly the tags of the pieces read so far. */
  lemma {:induction false} PieceMapTags(pieces: seq<string>, n: nat)
    requires n <= |pieces|
    ensures PieceMap(pieces, n).Keys == PieceTags(pieces[..n])
  {
    if n > 0 {
      PieceMapTags(pieces, n - 1);
      PieceMapKeysStep(pieces, n);
    } else {
      assert PieceTags(pieces[..0]) == {};
    }
  }

  /** The version loop of the loader over the pieces of the version string. */
  method PieceWeights(pieces: seq<string>) returns (matchs: map<string, int>)
    ensures matchs == PieceMap(pieces, |pieces|)
  {
    matchs := map[];
    var i := 0;
    while i < |pieces|
      invariant 0 <= i <= |pieces|
      invariant matchs == PieceMap(pieces, i)
    {
      var ver := Trim(pieces[i]);
      if ver != "" {
        matchs := matchs[ToLower(ver) := VersionWeight];
      }
      assert matchs == PieceMap(pieces, i + 1);
      i := i + 1;
    }
  }

  /** The version weights: none for a null or empty version string. */
  method VersionWeights(version: string) returns (matchs: map<string, int>)
    ensures matchs.Keys == VersionTags(version)
    ensures forall t :: t in matchs ==> matchs[t] == VersionWeight
  {
    matchs := map[];
    if version != "" {
      var pieces := Split(version, VersionSeparators);
      matchs := PieceWeights(pieces);
      PieceMapTags(pieces, |pieces|);
      PieceMapWeights(pieces, |pieces|);
      assert pieces[..|pieces|] == pieces;
    }
  }

  /** Builds the tag-weight table as the loader's first loop does, then adds the platform. */
  method TagWeights(version: string, platform: string) returns (r: Result<map<string, int>, Error>)
    ensures r == Weights(version, platform)
    ensures r.Err? <==> ToLower(platform) in VersionTags(version)
    ensures r.Ok? ==> r.value.Keys == VersionTags(version) + {ToLower(platform)}
    ensures r.Ok? ==> r.value[ToLower(platform)] == PlatformWeight
    ensures r.Ok? ==> forall t :: t in VersionTags(version) ==> r.value[t] == VersionWeight
  {
    var matchs := VersionWeights(version);
    assert matchs == map t | t in VersionTags(version) :: VersionWeight;
    var p := ToLower(platform);
    if p in matchs {
      return Err(DuplicateKey(p));
    }
    r := Ok(matchs[p := PlatformWeight]);
  }

  /** Every key of the weight table is already trimmed and lower-cased, provided the
      platform name is free of surrounding white space (a build target group's name). */
  lemma WeightKeysNormal(version: string, platform: string)
    requires Trim(platform) == platform
    requires Weights(version, platform).Ok?
    ensures forall k :: k in Weights(version, platform).value ==> ToLower(Trim(k)) == k
  {
    forall k | k in Weights(version, platform).value ensures ToLower(Trim(k)) == k {
      if k == ToLower(platform) {
        NormalizeTwice(platform);
      } else {
        assert k in VersionTags(version);
        var p :| p in Split(version, VersionSeparators) && Trim(p) != "" && k == ToLower(Trim(p));
        NormalizeTwice(p);
      }
    }
  }

  /** `Path.GetFileNameWithoutExtension` on a bare file name: everything before the last dot. */
  function BaseName(fileName: string): (r: string)
    ensures |r| <= |fileName| && r == fileName[..|r|]
    ensures '.' !in fileName ==> r == fileName
    ensures '.' in fileName ==> |r| < |fileName| && fileName[|r|] == '.' && '.' !in fileName[|r| + 1..]
    decreases |fileName|
  {
    if '.' !in fileName then fileName
    else if fileName[|fileName| - 1] == '.' then fileName[..|fileName| - 1]
    else
      assert fileName == fileName[..|fileName| - 1] + [fileName[|fileName| - 1]];
      BaseName(fileName[..|fileName| - 1])
  }

  /** The tags of a file: the distinct non-empty dot-separated segments of its base name. */
  function Segments(fileName: string): seq<string> {
    Distinct(NonEmpty(Split(BaseName(fileName), {'.'})))
  }

  /** A file takes part only if every segment, trimmed and lower-cased, is a known tag. */
  predicate Eligible(segments: seq<string>, weights: map<string, int>) {
    forall s :: s in segments ==> ToLower(Trim(s)) in weights
  }

  /** The sum of the segments' weights, each looked up as written; the first segment
      missing from the table raises `KeyNotFound`. */
  function Score(segments: seq<string>, weights: map<string, int>): (r: Result<int, Error>)
    ensures r.Ok? <==> forall s :: s in segments ==> s in weights
    decreases |segments|
  {
    if segments == [] then Ok(0)
    else if segments[0] !in weights then Err(KeyNotFound(segments[0]))
    else
      var rest :- Score(segments[1..], weights);
      Ok(weights[segments[0]] + rest)
  }

  /** What the loader makes of one file: `None` when it is not eligible, otherwise its score
      or the error the score lookup raises. */
  function Assess(f: ConfigFile, weights: map<string, int>): Result<Option<int>, Error> {
    var segments := Segments(f.name);
    if !Eligible(segments, weights) then Ok(None)
    else
      var score :- Score(segments, weights);
      Ok(Some(score))
  }

  /** For an eligible file the score lookup succeeds exactly when no segment needs trimming
      or lower-casing: a segment such as "Debug" passes the eligibility test and then fails
      the lookup. */
  lemma AssessSucceeds(f: ConfigFile, version: string, platform: string)
    requires Trim(platform) == platform
    requires Weights(version, platform).Ok?
    requires Eligible(Segments(f.name), Weights(version, platform).value)
    ensures Assess(f, Weights(version, platform).value).Ok?
        <==> forall s :: s in Segments(f.name) ==> ToLower(Trim(s)) == s
  {
    var w := Weights(version, platform).value;
    var segments := Segments(f.name);
    WeightKeysNormal(version, platform);
    if forall s :: s in segments ==> ToLower(Trim(s)) == s {
      forall s | s in segments ensures s in w {
        assert ToLower(Trim(s)) in w;
      }
      assert Score(segments, w).Ok?;
    } else {
      var s :| s in segments && ToLower(Trim(s)) != s;
      assert s !in w;
      assert Score(segments, w).Err?;
    }
  }

  /** The number of elements of `segments` that belong to `tags`. */
  function CountIn(segments: seq<string>, tags: set<string>): (n: nat)
    ensures n <= |segments|
    decreases |segments|
  {
    if segments == [] then 0 else (if segments[0] in tags then 1 else 0) + CountIn(segments[1..], tags)
  }

  /** A successful score is 10 per version tag among the segments plus 1 for the platform. */
  lemma {:induction false} ScoreCounts(segments: seq<string>, version: string, platform: string)
    requires Weights(version, platform).Ok?
    requires Score(segments, Weights(version, platform).value).Ok?
    ensures Score(segments, Weights(version, platform).value).value
         == VersionWeight * CountIn(segments, VersionTags(version))
          + PlatformWeight * CountIn(segments, {ToLower(platform)})
    decreases |segments|
  {
    if segments != [] {
      ScoreCounts(segments[1..], version, platform);
    }
  }

  function FilesOf(cs: seq<Candidate>): (r: seq<ConfigFile>)
    ensures |r| == |cs| && forall i :: 0 <= i < |cs| ==> r[i] == cs[i].file
  {
    seq(|cs|, i requires 0 <= i < |cs| => cs[i].file)
  }

  /** The eligible files of a directory listing, in listing order. */
  function EligibleFiles(dir: seq<ConfigFile>, weights: map<string, int>): seq<ConfigFile>
    decreases |dir|
  {
    if dir == [] then []
    else (if Eligible(Segments(dir[0].name), weights) then [dir[0]] else [])
         + EligibleFiles(dir[1..], weights)
  }

  /** The scored candidates of a directory listing, in listing order; the first file whose
      score lookup fails aborts the whole listing. */
  function Candidates(dir: seq<ConfigFile>, weights: map<string, int>): (r: Result<seq<Candidate>, Error>)
    decreases |dir|
  {
    if dir == [] then Ok([])
    else
      match Assess(dir[0], weights)
      case Err(e) => Err(e)
      case Ok(None) => Candidates(dir[1..], weights)
      case Ok(Some(score)) => Prepend([Candidate(dir[0], score)], Candidates(dir[1..], weights))
  }

  /** The listing fails exactly when some eligible file has a segment that is not a key of
      the table as written. */
  lemma {:induction false} CandidatesFail(dir: seq<ConfigFile>, weights: map<string, int>)
    ensures Candidates(dir, weights).Err?
            <==> exists f :: f in dir && Eligible(Segments(f.name), weights)
                             && Score(Segments(f.name), weights).Err?
    decreases |dir|
  {
    if dir != [] {
      CandidatesFail(dir[1..], weights);
      CandidatesFailStep(dir, weights);
    }
  }

  lemma CandidatesFailStep(dir: seq<ConfigFile>, weights: map<string, int>)
    requires dir != []
    requires Candidates(dir[1..], weights).Err?
             <==> exists f :: f in dir[1..] && Eligible(Segments(f.name), weights)
                              && Score(Segments(f.name), weights).Err?
    ensures Candidates(dir, weights).Err?
            <==> exists f :: f in dir && Eligible(Segments(f.name), weights)
                             && Score(Segments(f.name), weights).Err?
  {
    var f0 := dir[0];
    assert Candidates(dir, weights).Err? <==> Assess(f0, weights).Err? || Candidates(dir[1..], weights).Err?;
    assert Assess(f0, weights).Err? <==> Eligible(Segments(f0.name), weights) && Score(Segments(f0.name), weights).Err?;
    assert forall f :: f in dir <==> f == f0 || f in dir[1..];
  }

  lemma FilesOfCons(c: Candidate, rest: seq<Candidate>)
    ensures FilesOf([c] + rest) == [c.file] + FilesOf(rest)
  {
    assert forall i :: 0 < i <= |rest| ==> ([c] + rest)[i] == rest[i - 1];
  }

  /** Selection keeps exactly the eligible files, in listing order. */
  lemma {:induction false} CandidatesExact(dir: seq<ConfigFile>, weights: map<string, int>)
    requires Candidates(dir, weights).Ok?
    ensures FilesOf(Candidates(dir, weights).value) == EligibleFiles(dir, weights)
    decreases |dir|
  {
    if dir != [] {
      CandidatesExact(dir[1..], weights);
      var rest := Candidates(dir[1..], weights).value;
      var a := Assess(dir[0], weights);
      assert a.Ok?;
      var e := Eligible(Segments(dir[0].name), weights);
      assert e <==> a.value.Some?;
      assert EligibleFiles(dir, weights) == (if e then [dir[0]] else []) + EligibleFiles(dir[1..], weights);
      if a.value.Some? {
        var c := Candidate(dir[0], a.value.value);
        assert Candidates(dir, weights).value == [c] + rest;
        FilesOfCons(c, rest);
      } else {
        assert Candidates(dir, weights).value == rest;
      }
    }
  }

  /** Every candidate carries the score of its file. */
  lemma {:induction false} CandidatesScored(dir: seq<ConfigFile>, weights: map<string, int>)
    requires Candidates(dir, weights).Ok?
    ensures forall c :: c in Candidates(dir, weights).value ==> Score(Segments(c.file.name), weights) == Ok(c.score)
    decreases |dir|
  {
    if dir != [] {
      CandidatesScored(dir[1..], weights);
      var rest := Candidates(dir[1..], weights).value;
      var a := Assess(dir[0], weights);
      assert a.Ok?;
      if a.value.Some? {
        var c := Candidate(dir[0], a.value.value);
        assert Candidates(dir, weights).value == [c] + rest;
      } else {
        assert Candidates(dir, weights).value == rest;
      }
    }
  }

  /** `files` in front of a successful listing; a failed listing stays failed. */
  function Prepend(files: seq<Candidate>, r: Result<seq<Candidate>, Error>): (p: Result<seq<Candidate>, Error>)
    ensures r.Err? ==> p == r
    ensures r.Ok? ==> p.Ok? && |p.value| == |files| + |r.value| && p.value[..|files|] == files && p.value[|files|..] == r.value
  {
    if r.Ok? then Ok(files + r.value) else r
  }

  lemma PrependAssoc(a: seq<Candidate>, b: seq<Candidate>, r: Result<seq<Candidate>, Error>)
    ensures Prepend(a, Prepend(b, r)) == Prepend(a + b, r)
  {
    if r.Ok? {
      assert a + (b + r.value) == (a + b) + r.value;
    }
  }

  /** One step of the listing: the file at `i` is assessed, then the rest of the listing. */
  lemma CandidatesStep(dir: seq<ConfigFile>, i: nat, weights: map<string, int>)
    requires i < |dir|
    ensures var a := Assess(dir[i], weights);
      && (a.Err? ==> Candidates(dir[i..], weights) == Err(a.error))
      && (a.Ok? && a.value.None? ==> Candidates(dir[i..], weights) == Candidates(dir[i + 1..], weights))
      && (a.Ok? && a.value.Some? ==>
            Candidates(dir[i..], weights) == Prepend([Candidate(dir[i], a.value.value)], Candidates(dir[i + 1..], weights)))
  {
    assert dir[i..][1..] == dir[i + 1..];
  }

  /** Scores the directory listing file by file, as the loader's second loop does. */
  method SelectFiles(dir: seq<ConfigFile>, weights: map<string, int>) returns (r: Result<seq<Candidate>, Error>)
    ensures r == Candidates(dir, weights)
  {
    var files: seq<Candidate> := [];
    var i := 0;
    assert dir[i..] == dir;
    PrependAssoc([], [], Candidates(dir, weights));
    while i < |dir|
      invariant 0 <= i <= |dir|
      invariant Candidates(dir, weights) == Prepend(files, Candidates(dir[i..], weights))
    {
      CandidatesStep(dir, i, weights);
      var assessed := Assess(dir[i], weights);
      if assessed.Err? {
        assert Candidates(dir[i..], weights) == Err(assessed.error);
        return Err(assessed.error);
      }
      if assessed.value.Some? {
        var c := Candidate(dir[i], assessed.value.value);
        PrependAssoc(files, [c], Candidates(dir[i + 1..], weights));
        files := files + [c];
      }
      i := i + 1;
    }
    assert Candidates(dir[i..], weights) == Ok([]);
    assert files + [] == files;
    r := Ok(files);
  }

  function ScoreOf(c: Candidate): int {
    c.score
  }

  /** The merge order: ascending score, files with equal scores in listing order. */
  function MergeOrder(cs: seq<Candidate>): (r: seq<Candidate>)
    ensures Ordering.SortedBy(r, ScoreOf)
    ensures multiset(r) == multiset(cs)
    ensures forall k :: Ordering.WithKey(r, ScoreOf, k) == Ordering.WithKey(cs, ScoreOf, k)
  {
    Ordering.OrderByCorrect(cs, ScoreOf);
    Ordering.OrderBy(cs, ScoreOf)
  }
}
