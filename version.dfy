/** The build's version string: a comma-separated list of tags, persisted between builds
    and extended by the menu commands ("debug", "assets"). */
module Version {
  import opened Wrappers
  import opened Text

  /** The version string is split at commas and line breaks. */
  const VersionSeparators: set<char> := {',', '\r', '\n'}

  /** The tags a list of version pieces contributes: each non-blank piece, trimmed and lower-cased. */
  function PieceTags(pieces: seq<string>): set<string> {
    set p | p in pieces && Trim(p) != "" :: ToLower(Trim(p))
  }

  /** The version tags of a version string (an empty string has none). */
  function VersionTags(version: string): set<string> {
    if version == "" then {} else PieceTags(Split(version, VersionSeparators))
  }

  /** The persisted version: the trimmed file contents, or "" when there is no file. */
  function StoredVersion(file: Option<string>): string {
    if file.Some? then Trim(file.value) else ""
  }

  /** `GetVersion(version)`: the persisted version, extended by the trimmed argument (when it
      is neither null nor empty) with a single comma between the two. */
  function GetVersion(file: Option<string>, version: Option<string>): (r: string)
    ensures var ver := StoredVersion(file);
      version.None? || version.value == "" ==> r == ver
    ensures var ver := StoredVersion(file);
      version.Some? && version.value != "" && ver == "" ==> r == Trim(version.value)
    ensures var ver, arg := StoredVersion(file), if version.Some? then Trim(version.value) else "";
      version.Some? && version.value != "" && ver != "" ==>
        && |r| == |ver| + (if EndsWith(ver, ",") then 0 else 1) + |arg|
        && r[..|ver|] == ver
        && r[|r| - |arg|..] == arg
        && r[|r| - |arg| - 1] == ','
  {
    var ver := StoredVersion(file);
    if version.None? || version.value == "" then ver
    else
      var arg := Trim(version.value);
      if ver == "" then arg
      else (if EndsWith(ver, ",") then ver else ver + ",") + arg
  }

  lemma PieceTagsAppend(a: seq<string>, b: seq<string>)
    ensures PieceTags(a + b) == PieceTags(a) + PieceTags(b)
  {
    forall t | t in PieceTags(a + b) ensures t in PieceTags(a) + PieceTags(b) {
      var p :| p in a + b && Trim(p) != "" && t == ToLower(Trim(p));
      assert p in a || p in b;
    }
    forall t | t in PieceTags(a) + PieceTags(b) ensures t in PieceTags(a + b) {
      if t in PieceTags(a) {
        var p :| p in a && Trim(p) != "" && t == ToLower(Trim(p));
        assert p in a + b;
      } else {
        var p :| p in b && Trim(p) != "" && t == ToLower(Trim(p));
        assert p in a + b;
      }
    }
  }

  /** One more piece adds its tag, if it is not blank. */
  lemma PieceTagsSnoc(pieces: seq<string>, i: nat)
    requires i < |pieces|
    ensures PieceTags(pieces[..i + 1])
         == PieceTags(pieces[..i]) + (if Trim(pieces[i]) != "" then {ToLower(Trim(pieces[i]))} else {})
  {
    assert pieces[..i + 1] == pieces[..i] + [pieces[i]];
    PieceTagsAppend(pieces[..i], [pieces[i]]);
    assert forall p :: p in [pieces[i]] <==> p == pieces[i];
  }

  /** The empty string splits into one empty piece, which carries no tag. */
  lemma VersionTagsSplit(version: string)
    ensures VersionTags(version) == PieceTags(Split(version, VersionSeparators))
  {
    if version == "" {
      assert Split(version, VersionSeparators) == [""];
      assert PieceTags([""]) == {};
    }
  }

  /** Joining two version strings with a comma joins their tag sets. */
  lemma JoinTags(head: string, arg: string)
    ensures VersionTags(head + [','] + arg) == VersionTags(head) + VersionTags(arg)
  {
    SplitAtSeparator(head, ',', arg, VersionSeparators);
    PieceTagsAppend(Split(head, VersionSeparators), Split(arg, VersionSeparators));
    VersionTagsSplit(head + [','] + arg);
    VersionTagsSplit(head);
    VersionTagsSplit(arg);
  }

  /** Joining with a comma that the persisted version may already end with. */
  lemma AppendTags(ver: string, arg: string)
    requires ver != ""
    ensures VersionTags((if EndsWith(ver, ",") then ver else ver + ",") + arg)
         == VersionTags(ver) + VersionTags(arg)
  {
    if EndsWith(ver, ",") {
      var head := ver[..|ver| - 1];
      assert ver == head + [','] + "";
      JoinTags(head, "");
      assert ver + arg == head + [','] + arg;
      JoinTags(head, arg);
    } else {
      assert (ver + ",") + arg == ver + [','] + arg;
      JoinTags(ver, arg);
    }
  }

  /** The tags of the composed version are the persisted tags plus the argument's tags. */
  lemma GetVersionTags(file: Option<string>, version: Option<string>)
    ensures VersionTags(GetVersion(file, version))
         == VersionTags(StoredVersion(file)) + (if version.Some? then VersionTags(Trim(version.value)) else {})
  {
    var ver := StoredVersion(file);
    var r := GetVersion(file, version);
    if version.None? {
      assert r == ver;
    } else if version.value == "" {
      assert r == ver && Trim(version.value) == "";
      assert VersionTags(Trim(version.value)) == {};
    } else if ver == "" {
      assert r == Trim(version.value);
      assert VersionTags(ver) == {};
    } else {
      AppendTags(ver, Trim(version.value));
    }
  }

  /** The menu's debug build on a project without a persisted version builds the version "debug". */
  lemma DebugOnFreshProject()
    ensures GetVersion(None, Some("debug")) == "debug"
    ensures VersionTags(GetVersion(None, Some("debug"))) == {"debug"}
  {
    TrimNoOp("debug");
    SplitNone("debug", VersionSeparators);
    assert ToLower("debug") == "debug";
    assert PieceTags(["debug"]) == {"debug"};
  }
}
