/** The resolver's config table as the source keeps it: a dictionary from key to a mutable
    string array, filled document by document and rewritten in place by template expansion. */
module Config {
  import opened Wrappers
  import opened Text
  import Xml
  import opened Merge
  import Template
  import Selection
  import Access
  import Ordering

  /** `keys` lists the keys of `m` once each, and no two keys share a value. */
  ghost predicate Indexed<A>(keys: seq<string>, m: map<string, A>) {
    && (forall i, j :: 0 <= i < j < |keys| ==> keys[i] != keys[j])
    && m.Keys == set k | k in keys
    && (forall k, k' :: k in m && k' in m && k != k' ==> m[k] != m[k'])
  }

  /** Setting a key to a value no key has keeps the table indexed. */
  lemma IndexedPut<A>(keys: seq<string>, m: map<string, A>, k: string, v: A)
    requires Indexed(keys, m) && v !in m.Values
    ensures Indexed(if k in m then keys else keys + [k], m[k := v])
  {
    var ks := if k in m then keys else keys + [k];
    assert m[k := v].Keys == set k' | k' in ks;
    var m' := m[k := v];
    forall k1, k2 | k1 in m' && k2 in m' && k1 != k2 ensures m'[k1] != m'[k2] {
      if k1 != k && k2 != k {
      } else if k1 == k {
        assert m[k2] in m.Values;
      } else {
        assert m[k1] in m.Values;
      }
    }
  }

  class ConfigTable {
    /** The keys, folded to lower case, in insertion order. */
    var keys: seq<string>
    /** The value array of each folded key. */
    var entries: map<string, array<string>>

    /** `keys` and `entries` describe the same keys, no array is shared by two keys (each
        document element gets a fresh array), and every array has a first slot. */
    ghost predicate Valid()
      reads this, entries.Values
    {
      Indexed(keys, entries) && forall k :: k in entries ==> entries[k].Length >= 1
    }

    /** The table's contents as a value. */
    function Model(): Table
      reads this, entries.Values
    {
      Table(keys, Contents())
    }

    /** A valid table's contents form a valid value table. */
    lemma ModelValid()
      requires Valid()
      ensures Merge.Valid(Model())
    {
    }

    /** The value arrays' current contents, key by key. */
    function Contents(): (c: map<string, seq<string>>)
      reads this, entries.Values
      ensures c.Keys == entries.Keys
      ensures forall k :: k in entries ==> c[k] == entries[k][..]
    {
      map k | k in entries :: entries[k][..]
    }

    constructor ()
      ensures Valid() && Model() == Empty
    {
      keys := [];
      entries := map[];
    }

    /** `configs[key] = values`: the key takes a new array; a key not present before joins the
        end of the key order. */
    method Put(k: string, values: array<string>)
      requires Valid() && values.Length >= 1 && values !in entries.Values
      modifies this
      ensures Valid()
      ensures entries == old(entries)[k := values]
      ensures keys == if k in old(entries) then old(keys) else old(keys) + [k]
      ensures Contents() == old(Contents())[k := values[..]]
    {
      if k !in entries {
        keys := keys + [k];
      }
      entries := entries[k := values];
      assert Valid() by {
        IndexedPut(old(keys), old(entries), k, values);
      }
      assert Contents() == old(Contents())[k := values[..]] by {
        forall k' | k' in entries ensures entries[k'][..] == old(Contents())[k := values[..]][k'] {
        }
      }
    }

    /** `values[i] = text` on the array of the present key `k`; no other array shares it. */
    method SetSlot(k: string, i: nat, text: string)
      requires Valid() && k in entries && i < entries[k].Length
      modifies entries[k]
      ensures Valid()
      ensures Contents() == old(Contents())[k := old(Contents())[k][i := text]]
    {
      var a := entries[k];
      a[i] := text;
      assert Contents() == old(Contents())[k := old(Contents())[k][i := text]] by {
        forall k' | k' in entries && k' != k ensures entries[k'][..] == old(entries[k'][..]) {
          assert entries[k'] != a;
        }
      }
    }

    /** The merge step for an append key whose first slot is blank once trimmed: the slot is
        trimmed in place, then the key takes the new array. */
    method Reset(k: string, values: array<string>)
      requires Valid() && values.Length >= 1 && values !in entries.Values
      requires k in entries && TrimEnd(entries[k][0]) == ""
      modifies this, entries[k]
      ensures Valid() && keys == old(keys)
      ensures entries.Values <= old(entries.Values) + {values}
      ensures Contents() == old(Contents())[k := values[..]]
    {
      ghost var c0 := Contents();
      SetSlot(k, 0, TrimEnd(entries[k][0]));
      ghost var c1 := Contents();
      Put(k, values);
      assert c1[k := values[..]] == c0[k := values[..]];
    }

    /** The merge step that accumulates: the existing array's first slot is trimmed at the end
        and extended in place, the trimmed text and the extension written as one value. */
    method Accumulate(name: string, values: array<string>)
      requires Valid() && values.Length >= 1 && values !in entries.Values
      requires name in Append && ToLower(name) in entries && TrimEnd(entries[ToLower(name)][0]) != ""
      modifies entries[ToLower(name)]
      ensures Valid()
      ensures Model() == Merge.MergeEntry(old(Model()), Entry(name, values[..]))
    {
      var k := ToLower(name);
      ghost var t := Model();
      var trimmed := TrimEnd(entries[k][0]);
      assert trimmed == TrimEnd(t.entries[k][0]);
      var text := Joined(trimmed, Append[name], values[0]);
      SetSlot(k, 0, text);
      assert Accumulates(t, name);
      assert Model() == t.(entries := t.entries[k := t.entries[k][0 := text]]);
    }

    /** The merge step that overrides: the key takes the new array. An append key whose first
        slot is blank once trimmed has that slot trimmed in place first. */
    method Override(name: string, values: array<string>)
      requires Valid() && values.Length >= 1 && values !in entries.Values
      requires !(name in Append && ToLower(name) in entries && TrimEnd(entries[ToLower(name)][0]) != "")
      modifies this, entries.Values
      ensures Valid()
      ensures Model() == Merge.MergeEntry(old(Model()), Entry(name, values[..]))
      ensures entries.Values <= old(entries.Values) + {values}
      ensures values[..] == old(values[..])
    {
      var k := ToLower(name);
      ghost var t := Model();
      if name in Append && k in entries {
        Reset(k, values);
        assert Model() == t.(entries := t.entries[k := values[..]]);
      } else {
        Put(k, values);
        assert Model() == Table(keys, t.entries[k := values[..]]);
      }
    }

    /** One iteration of the merge loop: a non-append key (or an append key that is absent or
        blank) takes the new array; otherwise the existing array's first slot is trimmed at the
        end and extended in place. */
    method MergeEntry(name: string, values: array<string>)
      requires Valid() && values.Length >= 1 && values !in entries.Values
      modifies this, entries.Values
      ensures Valid()
      ensures Model() == Merge.MergeEntry(old(Model()), Entry(name, values[..]))
      ensures entries.Values <= old(entries.Values) + {values}
      ensures values[..] == old(values[..])
    {
      var k := ToLower(name);
      if name in Append && k in entries && TrimEnd(entries[k][0]) != "" {
        Accumulate(name, values);
      } else {
        Override(name, values);
      }
    }

    /** `Get<string[]>(name, defaultValue)` on the live table: the stored array itself, not a
        copy, so that writes through it change the table; `None` for a missing key. */
    method GetArray(name: string) returns (found: Option<array<string>>)
      requires Valid()
      ensures found.Some? <==> Access.Contains(Model(), name)
      ensures found.Some? ==> found.value == entries[ToLower(name)] && found.value[..] == Model().entries[ToLower(name)]
    {
      var k := ToLower(name);
      if k in entries {
        found := Some(entries[k]);
      } else {
        found := None;
      }
    }

    /** A config element's value array, read into a fresh array: the texts of its child
        elements when it has any, otherwise its own text. */
    static method ReadValues(node: Xml.Node) returns (values: array<string>)
      ensures fresh(values) && values[..] == Xml.EntryValues(node)
    {
      var valueNodes := Xml.ChildElements(node);
      if |valueNodes| > 0 {
        values := new string[|valueNodes|];
        var i := 0;
        while i < |valueNodes|
          invariant 0 <= i <= |valueNodes|
          invariant forall j :: 0 <= j < i ==> values[j] == Xml.InnerText(valueNodes[j])
        {
          values[i] := Xml.InnerText(valueNodes[i]);
          i := i + 1;
        }
      } else {
        values := new string[1];
        values[0] := Xml.InnerText(node);
      }
    }

    /** The body of the merge loop for one config element: its values are read into a fresh
        array, which is merged under the element's local name. */
    method MergeNode(node: Xml.Node)
      requires Valid() && node.Element?
      modifies this, entries.Values
      ensures Valid()
      ensures Model() == Merge.MergeEntry(old(Model()), Entry(node.name, Xml.EntryValues(node)))
      ensures forall a :: a in entries.Values ==> a in old(entries.Values) || fresh(a)
    {
      ghost var t := Model();
      var values := ReadValues(node);
      assert Valid() && Model() == t;
      MergeEntry(node.name, values);
    }

    /** The merge loop over one document: every child element of the document element, in
        document order. */
    method MergeDocument(root: Xml.Node)
      requires Valid()
      modifies this, entries.Values
      ensures Valid()
      ensures Model() == MergeEntries(old(Model()), DocumentEntries(root))
      ensures forall a :: a in entries.Values ==> a in old(entries.Values) || fresh(a)
    {
      var nodes := Xml.ChildElements(root);
      ghost var es := DocumentEntries(root);
      ghost var t0 := Model();
      ModelValid();
      var i := 0;
      while i < |nodes|
        invariant 0 <= i <= |nodes|
        invariant Valid()
        invariant Model() == MergeEntries(t0, es[..i])
        invariant forall a :: a in entries.Values ==> a in old(entries.Values) || fresh(a)
      {
        MergeEntriesSnoc(t0, es, i);
        assert nodes[i] in nodes;
        assert es[i] == Entry(nodes[i].name, Xml.EntryValues(nodes[i]));
        MergeNode(nodes[i]);
        i := i + 1;
      }
      assert es[..i] == es;
    }

    /** The inner loop of `ReplaceTemplate(input)` for one key: every slot of its array that
        contains a placeholder is expanded against the table as it stands and written back in
        place, in slot order. An expansion error stops the loop. */
    method ReplaceKey(host: Template.Host, key: string, fuel: nat) returns (err: Option<Error>)
      requires Valid() && key in entries
      modifies entries[key]
      ensures Valid()
      ensures var spec := Template.ReplaceSlots(old(Model()), host, key, 0, fuel);
        && (err.None? <==> spec.Ok?)
        && (err.None? ==> Model() == spec.value)
        && (err.Some? ==> spec == Err(err.value))
    {
      ghost var spec := Template.ReplaceSlots(Model(), host, key, 0, fuel);
      var values := entries[key];
      var i := 0;
      while i < values.Length
        invariant 0 <= i <= values.Length
        invariant Valid() && entries == old(entries)
        invariant spec == Template.ReplaceSlots(Model(), host, key, i, fuel)
      {
        var value := values[i];
        if Template.IsMatch(value) {
          var replaced := Template.FindReplaceString(Model(), host, key, value, key, fuel);
          if replaced.Err? {
            return Some(replaced.error);
          }
          SetSlot(key, i, replaced.value);
        }
        i := i + 1;
      }
      return None;
    }

    /** `ReplaceTemplate(input)`: the inner loop for every key of a snapshot of the key order.
        An expansion error aborts the loops (the writes already made remain). */
    method ReplaceTemplates(host: Template.Host, fuel: nat) returns (err: Option<Error>)
      requires Valid()
      modifies entries.Values
      ensures Valid()
      ensures var spec := Template.ReplaceTemplates(old(Model()), host, fuel);
        && (err.None? <==> spec.Ok?)
        && (err.None? ==> Model() == spec.value)
        && (err.Some? ==> spec == Err(err.value))
    {
      ModelValid();
      ghost var spec := Template.ReplaceTemplates(Model(), host, fuel);
      var ks := keys;
      var j := 0;
      while j < |ks|
        invariant 0 <= j <= |ks|
        invariant Valid() && keys == ks && entries == old(entries)
        invariant forall k :: k in ks ==> k in Model().entries
        invariant spec == Template.ReplaceKeys(Model(), host, ks[j..], fuel)
      {
        var key := ks[j];
        ghost var before := Model();
        assert ks[j..][1..] == ks[j + 1..] && ks[j..][0] == key;
        Template.ReplaceKeysStep(before, host, ks[j..], fuel);
        err := ReplaceKey(host, key, fuel);
        if err.Some? {
          return;
        }
        j := j + 1;
      }
      return None;
    }
  }

  /** The document elements of the selected files, in merge order. */
  function Roots(cs: seq<Selection.Candidate>): (rs: seq<Xml.Node>)
    ensures |rs| == |cs| && forall i :: 0 <= i < |cs| ==> rs[i] == cs[i].file.root
  {
    seq(|cs|, i requires 0 <= i < |cs| => cs[i].file.root)
  }

  /** Whether the document of a selected file defines `key`. */
  function DefinesIn(key: string): Selection.Candidate -> bool {
    (c: Selection.Candidate) => Merge.Defines(c.file.root, key)
  }

  /** The last document defining a key, among the documents of some files, is the document of
      the last of those files that defines it. */
  lemma {:induction false} RootsLast(cs: seq<Selection.Candidate>, key: string)
    ensures var w := Ordering.LastWith(cs, DefinesIn(key));
      LastDefining(Roots(cs), key) == if w.Some? then Some(w.value.file.root) else None
    decreases |cs|
  {
    if cs != [] {
      assert Roots(cs)[1..] == Roots(cs[1..]);
      RootsLast(cs[1..], key);
    }
  }

  /** Which file a non-append key takes its value from once the selected files are merged:
      among the files whose document names the key, the one with the highest score, and among
      several with that score, the last in listing order; within its document, the last
      element naming the key. */
  lemma HighestScoreWins(cs: seq<Selection.Candidate>, i: nat, key: string)
    requires i < |cs| && Merge.Defines(cs[i].file.root, key)
    requires forall j :: 0 <= j < |cs| && Merge.Defines(cs[j].file.root, key) ==>
               cs[j].score < cs[i].score || (cs[j].score == cs[i].score && j <= i)
    requires LastNaming(DocumentEntries(cs[i].file.root), key).value.name !in Append
    ensures var merged := MergeDocuments(Empty, Roots(Selection.MergeOrder(cs)));
      key in merged.entries && merged.entries[key] == LastNaming(DocumentEntries(cs[i].file.root), key).value.values
  {
    var roots := Roots(Selection.MergeOrder(cs));
    WinningRoot(cs, i, key);
    DocumentsLastWins(Empty, roots, key);
  }

  /** The winning file's document is the last document defining the key in merge order. */
  lemma WinningRoot(cs: seq<Selection.Candidate>, i: nat, key: string)
    requires i < |cs| && Merge.Defines(cs[i].file.root, key)
    requires forall j :: 0 <= j < |cs| && Merge.Defines(cs[j].file.root, key) ==>
               cs[j].score < cs[i].score || (cs[j].score == cs[i].score && j <= i)
    ensures LastDefining(Roots(Selection.MergeOrder(cs)), key) == Some(cs[i].file.root)
  {
    var p := DefinesIn(key);
    var ordered := Ordering.OrderBy(cs, Selection.ScoreOf);
    assert Selection.MergeOrder(cs) == ordered;
    assert p(cs[i]);
    assert forall j :: 0 <= j < |cs| && p(cs[j]) ==>
      Selection.ScoreOf(cs[j]) < Selection.ScoreOf(cs[i]) || (Selection.ScoreOf(cs[j]) == Selection.ScoreOf(cs[i]) && j <= i);
    Ordering.OrderByLast(cs, Selection.ScoreOf, p, i);
    RootsLast(ordered, key);
  }

  /** The file loop of `LoadConfig`: a new table, into which the document of every file is
      merged, in the given order. */
  method MergeFiles(ordered: seq<Selection.Candidate>) returns (table: ConfigTable)
    ensures fresh(table) && table.Valid() && table.Model() == MergeDocuments(Empty, Roots(ordered))
    ensures forall a :: a in table.entries.Values ==> fresh(a)
  {
    ghost var roots := Roots(ordered);
    table := new ConfigTable();
    var i := 0;
    while i < |ordered|
      invariant 0 <= i <= |ordered|
      invariant fresh(table) && table.Valid()
      invariant forall a :: a in table.entries.Values ==> fresh(a)
      invariant table.Model() == MergeDocuments(Empty, roots[..i])
    {
      MergeDocumentsSnoc(Empty, roots, i);
      table.MergeDocument(ordered[i].file.root);
      i := i + 1;
    }
    assert roots[..i] == roots;
  }

  /** `LoadConfig(version)` on values: the tag weights, the eligible files of the config
      directory with their scores, the files merged in ascending score order into an empty
      table, then every template expanded. */
  function Load(version: string, platform: string, dir: seq<Selection.ConfigFile>, host: Template.Host, fuel: nat)
    : (r: Result<Table, Error>)
    ensures r.Ok? ==> Merge.Valid(r.value)
    ensures Selection.Weights(version, platform).Err? ==> r == Err(Selection.Weights(version, platform).error)
  {
    var weights :- Selection.Weights(version, platform);
    var candidates :- Selection.Candidates(dir, weights);
    Template.ReplaceTemplates(MergeDocuments(Empty, Roots(Selection.MergeOrder(candidates))), host, fuel)
  }

  /** `LoadConfig(version)`: builds the config table in place. `platform` is the selected build
      target group's name, `dir` the files of the config directory, `host` the global variables
      and the formatter. */
  method LoadConfig(version: string, platform: string, dir: seq<Selection.ConfigFile>, host: Template.Host, fuel: nat)
    returns (r: Result<ConfigTable, Error>)
    ensures r.Ok? <==> Load(version, platform, dir, host, fuel).Ok?
    ensures r.Ok? ==> fresh(r.value) && r.value.Valid() && r.value.Model() == Load(version, platform, dir, host, fuel).value
    ensures r.Err? ==> Load(version, platform, dir, host, fuel) == Err(r.error)
  {
    ghost var spec := Load(version, platform, dir, host, fuel);
    var weights := Selection.TagWeights(version, platform);
    if weights.Err? {
      return Err(weights.error);
    }
    var files := Selection.SelectFiles(dir, weights.value);
    if files.Err? {
      assert spec == Err(files.error);
      return Err(files.error);
    }
    var table := MergeFiles(Selection.MergeOrder(files.value));
    assert spec == Template.ReplaceTemplates(table.Model(), host, fuel);
    var err := table.ReplaceTemplates(host, fuel);
    if err.Some? {
      return Err(err.value);
    }
    return Ok(table);
  }
}
