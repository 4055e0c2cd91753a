/** Template expansion in config values: `{$Name}` and `{$Name,Format}` placeholders, found by
    the pattern `\{\$(.*?)(\,(.*))?\}` and replaced by the expansion of another key's first
    slot or by a global variable. */
module Template {
  import opened Wrappers
  import opened Text
  import opened Merge

  /** One match of the placeholder pattern: where it starts and ends (exclusive) in the
      scanned text, its name group and its format group ("" when the group is absent). */
  datatype Match = Match(start: nat, name: string, format: string, end: nat)

  /** The first index at or after `from` holding ',', '}' or a line break (`.` in the pattern
      matches neither a line break nor, for the lazy name group, anything past its stop). */
  function NameStop(s: string, from: nat): (j: nat)
    requires from <= |s|
    ensures from <= j <= |s|
    ensures forall x :: from <= x < j ==> s[x] != ',' && s[x] != '}' && s[x] != '\n'
    ensures j < |s| ==> s[j] == ',' || s[j] == '}' || s[j] == '\n'
    decreases |s| - from
  {
    if from == |s| || s[from] == ',' || s[from] == '}' || s[from] == '\n' then from
    else NameStop(s, from + 1)
  }

  /** The end of the line that contains `from`: the index of the next line break, or `|s|`. */
  function LineEnd(s: string, from: nat): (j: nat)
    requires from <= |s|
    ensures from <= j <= |s|
    ensures forall x :: from <= x < j ==> s[x] != '\n'
    ensures j < |s| ==> s[j] == '\n'
    decreases |s| - from
  {
    if from == |s| || s[from] == '\n' then from else LineEnd(s, from + 1)
  }

  /** The last '}' in `s[from..stop]`. */
  function LastBrace(s: string, from: nat, stop: nat): (r: Option<nat>)
    requires from <= stop <= |s|
    ensures r.Some? ==> from <= r.value < stop && s[r.value] == '}'
                        && forall x :: r.value < x < stop ==> s[x] != '}'
    ensures r.None? ==> forall x :: from <= x < stop ==> s[x] != '}'
    decreases stop - from
  {
    if stop == from then None
    else if s[stop - 1] == '}' then Some(stop - 1)
    else LastBrace(s, from, stop - 1)
  }

  /** Characters the name group can hold before the pattern can close. */
  predicate PlainName(name: string) {
    forall x :: 0 <= x < |name| ==> name[x] != ',' && name[x] != '}' && name[x] != '\n'
  }

  /** The match of the pattern that starts at `pos`, if any. The lazy name group stops at the
      first ',' or '}'; at a '}' the placeholder closes without a format; at a ',' the greedy
      format group runs to the last '}' of the line. */
  function MatchAt(s: string, pos: nat): (r: Option<Match>)
    requires pos <= |s|
    ensures r.Some? ==> r.value.start == pos && pos + 3 <= r.value.end <= |s|
  {
    if !(pos + 2 <= |s| && s[pos] == '{' && s[pos + 1] == '$') then None
    else
      var n := NameStop(s, pos + 2);
      if n == |s| || s[n] == '\n' then None
      else if s[n] == '}' then Some(Match(pos, s[pos + 2..n], "", n + 1))
      else
        var e := LastBrace(s, n + 1, LineEnd(s, n + 1));
        if e.None? then None
        else Some(Match(pos, s[pos + 2..n], s[n + 1..e.value], e.value + 1))
  }

  /** The text from an opening `{$` to a closing brace. */
  lemma ClosedText(s: string, pos: nat, n: nat)
    requires pos + 2 <= n < |s| && s[pos] == '{' && s[pos + 1] == '$' && s[n] == '}'
    ensures s[pos..n + 1] == "{$" + s[pos + 2..n] + "}"
  {
    assert s[pos..n + 1] == s[pos..pos + 2] + s[pos + 2..n] + [s[n]];
  }

  /** The text from an opening `{$` over a ',' to a closing brace. */
  lemma FormattedText(s: string, pos: nat, n: nat, e: nat)
    requires pos + 2 <= n < e < |s| && s[pos] == '{' && s[pos + 1] == '$' && s[n] == ',' && s[e] == '}'
    ensures s[pos..e + 1] == "{$" + s[pos + 2..n] + "," + s[n + 1..e] + "}"
  {
    assert s[pos..e + 1] == s[pos..pos + 2] + s[pos + 2..n] + [s[n]] + s[n + 1..e] + [s[e]];
  }

  /** A match is the text `{$name}` or `{$name,format}`, its name free of ',', '}' and line
      breaks, its format free of line breaks. */
  lemma MatchAtText(s: string, pos: nat)
    requires pos <= |s| && MatchAt(s, pos).Some?
    ensures var m := MatchAt(s, pos).value;
      && PlainName(m.name) && (forall x :: 0 <= x < |m.format| ==> m.format[x] != '\n')
      && (s[pos..m.end] == "{$" + m.name + "}" || s[pos..m.end] == "{$" + m.name + "," + m.format + "}")
  {
    var n := NameStop(s, pos + 2);
    var m := MatchAt(s, pos).value;
    assert PlainName(m.name) by {
      assert m.name == s[pos + 2..n];
    }
    if s[n] == '}' {
      assert m == Match(pos, s[pos + 2..n], "", n + 1);
      ClosedText(s, pos, n);
    } else {
      var line := LineEnd(s, n + 1);
      var e := LastBrace(s, n + 1, line).value;
      assert m == Match(pos, s[pos + 2..n], s[n + 1..e], e + 1);
      assert forall x :: 0 <= x < |m.format| ==> m.format[x] == s[n + 1 + x];
      FormattedText(s, pos, n, e);
    }
  }

  /** Every position up to the end of a line lies on that line. */
  lemma {:induction false} LineEndSame(s: string, from: nat, x: nat)
    requires from <= |s| && from <= x <= LineEnd(s, from)
    ensures LineEnd(s, x) == LineEnd(s, from)
    decreases x - from
  {
    if x > from {
      LineEndSame(s, from + 1, x);
    }
  }

  /** After the last '}' of a line, the rest of the line holds no '}'. */
  lemma LastBraceOfLine(s: string, from: nat)
    requires from <= |s| && LastBrace(s, from, LineEnd(s, from)).Some?
    ensures var e := LastBrace(s, from, LineEnd(s, from)).value;
      forall x :: e + 1 <= x < LineEnd(s, e + 1) ==> s[x] != '}'
  {
    var e := LastBrace(s, from, LineEnd(s, from)).value;
    LineEndSame(s, from, e + 1);
  }

  /** The format group is greedy: a placeholder whose name is followed by a ',' leaves no '}'
      on the rest of its line. */
  lemma MatchAtGreedy(s: string, pos: nat)
    requires pos <= |s| && MatchAt(s, pos).Some?
    ensures var m := MatchAt(s, pos).value;
      pos + 2 + |m.name| < |s| && s[pos + 2 + |m.name|] == ',' ==>
        forall x :: m.end <= x < LineEnd(s, m.end) ==> s[x] != '}'
  {
    var n := NameStop(s, pos + 2);
    var m := MatchAt(s, pos).value;
    assert pos + 2 + |m.name| == n;
    if s[n] == '}' {
    } else {
      assert m.end == LastBrace(s, n + 1, LineEnd(s, n + 1)).value + 1;
      LastBraceOfLine(s, n + 1);
    }
  }

  /** Where a placeholder opens but no match starts, the name runs into the end of the line,
      or it reaches a ',' with no '}' after it on the line. */
  lemma MatchAtNone(s: string, pos: nat)
    requires pos + 2 <= |s| && s[pos] == '{' && s[pos + 1] == '$' && MatchAt(s, pos).None?
    ensures var n := NameStop(s, pos + 2);
      n == |s| || s[n] == '\n' || (s[n] == ',' && forall x :: n < x < LineEnd(s, n) ==> s[x] != '}')
  {
    var n := NameStop(s, pos + 2);
    if n < |s| && s[n] == ',' {
      LineEndSame(s, n, n + 1);
    }
  }

  /** The first match at or after `pos`: the regular-expression engine tries each start in turn. */
  function NextMatch(s: string, pos: nat): (r: Option<Match>)
    requires pos <= |s|
    ensures r.Some? ==> pos <= r.value.start < r.value.end <= |s|
                        && MatchAt(s, r.value.start) == r
                        && forall p :: pos <= p < r.value.start ==> MatchAt(s, p).None?
    ensures r.None? ==> forall p :: pos <= p <= |s| ==> MatchAt(s, p).None?
    decreases |s| - pos
  {
    var m := MatchAt(s, pos);
    if m.Some? then m
    else if pos == |s| then None
    else NextMatch(s, pos + 1)
  }

  /** `Regex.IsMatch`. */
  predicate IsMatch(s: string) {
    NextMatch(s, 0).Some?
  }

  /** The successive matches of the pattern from `pos`, each search resuming where the previous
      match ended, as `Regex.Replace` finds them. */
  function Placeholders(s: string, pos: nat): (ms: seq<Match>)
    requires pos <= |s|
    decreases |s| - pos
  {
    match NextMatch(s, pos)
    case None => []
    case Some(m) => [m] + Placeholders(s, m.end)
  }

  /** A global variable: its `ToString()` text and, when it is `IFormattable`, its
      `ToString(format, null)`, which fails (`None`) on a format it rejects. */
  datatype Global = Plain(text: string) | Formattable(text: string, render: string -> Option<string>)

  /** What the expansion takes from outside the table: the global variables (looked up with
      the default, case-sensitive comparer) and `string.Format(format, value)`, which fails
      (`None`) on a malformed format. */
  datatype Host = Host(globals: map<string, Global>, format: (string, string) -> Option<string>)

  /** `string.Format(format, value)` when a format is given. */
  function ApplyFormat(host: Host, format: string, value: string): (r: Result<string, Error>)
    ensures format == "" ==> r == Ok(value)
    ensures format != "" ==> (r.Err? <==> host.format(format, value).None?)
    ensures format != "" && host.format(format, value).Some? ==> r == Ok(host.format(format, value).value)
  {
    if format == "" then Ok(value)
    else match host.format(format, value)
      case None => Err(FormatError(format))
      case Some(text) => Ok(text)
  }

  /** A global variable's text: formatted only when a format is given and the value is formattable. */
  function RenderGlobal(g: Global, format: string): (r: Result<string, Error>)
    ensures format == "" || g.Plain? ==> r == Ok(g.text)
    ensures g.Formattable? && format != "" ==> (r.Err? <==> g.render(format).None?)
    ensures g.Formattable? && format != "" && g.render(format).Some? ==> r == Ok(g.render(format).value)
  {
    if g.Formattable? && format != "" then
      match g.render(format)
      case None => Err(FormatError(format))
      case Some(text) => Ok(text)
    else Ok(g.text)
  }

  /** Keys are compared as the table's comparer does: ignoring case. */
  predicate SameKey(a: string, b: string) {
    ToLower(a) == ToLower(b)
  }

  /** `FindReplaceString` from position `pos` of `v`: each match of the pattern is replaced by
      its resolution, left to right, and the first failing resolution aborts the expansion.
      `fuel` bounds the depth of nested key expansions (the source recurses without bound). */
  function ExpandFrom(t: Table, host: Host, key: string, v: string, pos: nat, start: string, fuel: nat)
    : Result<string, Error>
    requires pos <= |v|
    decreases fuel, 1, |v| - pos
  {
    match NextMatch(v, pos)
    case None => Ok(v[pos..])
    case Some(m) =>
      var rep :- Resolve(t, host, key, m.name, m.format, start, fuel);
      var rest :- ExpandFrom(t, host, key, v, m.end, start, fuel);
      Ok(v[pos..m.start] + rep + rest)
  }

  /** The replacement of one placeholder met while expanding `key`'s value, the expansion having
      started at `start`: a self reference and a reference back to the start key fail; a config
      key gives the expansion of its first slot, formatted; a global gives its text; any other
      name fails. */
  function Resolve(t: Table, host: Host, key: string, name: string, format: string, start: string, fuel: nat)
    : Result<string, Error>
    decreases fuel, 0, 0
  {
    if SameKey(key, name) then Err(ReferenceSelf(name, key, start))
    else if SameKey(start, name) then Err(LoopReference(name, start))
    else if ToLower(name) in t.entries then
      var slots := t.entries[ToLower(name)];
      if fuel == 0 then Err(TooDeep)
      else if |slots| == 0 then Err(IndexOutOfRange)
      else
        var value :- ExpandFrom(t, host, name, slots[0], 0, start, fuel - 1);
        ApplyFormat(host, format, value)
    else if name in host.globals then RenderGlobal(host.globals[name], format)
    else Err(NotFoundKey(name))
  }

  /** `FindReplaceString(input, key, value, startKey)`. */
  function FindReplaceString(t: Table, host: Host, key: string, value: string, start: string, fuel: nat)
    : Result<string, Error>
  {
    ExpandFrom(t, host, key, value, 0, start, fuel)
  }

  /** A name the expansion of `key` (started at `start`) can resolve. */
  predicate Resolvable(t: Table, host: Host, key: string, name: string, start: string) {
    !SameKey(key, name) && !SameKey(start, name) && (ToLower(name) in t.entries || name in host.globals)
  }

  /** A successful expansion met only resolvable names: it names neither the key being expanded
      nor the start key, and every name is a config key or a global variable. */
  lemma {:induction false} ExpandOkNames(t: Table, host: Host, key: string, v: string, pos: nat, start: string, fuel: nat)
    requires pos <= |v|
    requires ExpandFrom(t, host, key, v, pos, start, fuel).Ok?
    ensures forall m :: m in Placeholders(v, pos) ==> Resolvable(t, host, key, m.name, start)
    decreases |v| - pos
  {
    match NextMatch(v, pos)
    case None =>
    case Some(m) =>
      ExpandOkNames(t, host, key, v, m.end, start, fuel);
      assert Placeholders(v, pos) == [m] + Placeholders(v, m.end);
  }

  /** The first placeholder decides the documented failures. */
  lemma FirstPlaceholderErrors(t: Table, host: Host, key: string, v: string, start: string, fuel: nat)
    requires NextMatch(v, 0).Some?
    ensures var m, r := NextMatch(v, 0).value, FindReplaceString(t, host, key, v, start, fuel);
      && (SameKey(key, m.name) ==> r == Err(ReferenceSelf(m.name, key, start)))
      && (!SameKey(key, m.name) && SameKey(start, m.name) ==> r == Err(LoopReference(m.name, start)))
      && (!SameKey(key, m.name) && !SameKey(start, m.name) && ToLower(m.name) !in t.entries
          && m.name !in host.globals
          ==> r == Err(NotFoundKey(m.name)))
  {
    var m := NextMatch(v, 0).value;
    var rep := Resolve(t, host, key, m.name, m.format, start, fuel);
    if rep.Err? {
      assert FindReplaceString(t, host, key, v, start, fuel) == Err(rep.error);
    }
  }

  /** More depth changes nothing but a depth failure: the bound only cuts off expansions the
      source would pursue further. */
  lemma {:induction false} ExpandFuel(t: Table, host: Host, key: string, v: string, pos: nat, start: string, fuel: nat)
    requires pos <= |v|
    requires ExpandFrom(t, host, key, v, pos, start, fuel) != Err(TooDeep)
    ensures ExpandFrom(t, host, key, v, pos, start, fuel + 1) == ExpandFrom(t, host, key, v, pos, start, fuel)
    decreases fuel, 1, |v| - pos
  {
    match NextMatch(v, pos)
    case None =>
    case Some(m) =>
      var rep := Resolve(t, host, key, m.name, m.format, start, fuel);
      if rep != Err(TooDeep) {
        ResolveFuel(t, host, key, m.name, m.format, start, fuel);
        if rep.Ok? {
          var rest := ExpandFrom(t, host, key, v, m.end, start, fuel);
          if rest != Err(TooDeep) {
            ExpandFuel(t, host, key, v, m.end, start, fuel);
          }
        }
      }
  }

  lemma {:induction false} ResolveFuel(t: Table, host: Host, key: string, name: string, format: string, start: string, fuel: nat)
    requires Resolve(t, host, key, name, format, start, fuel) != Err(TooDeep)
    ensures Resolve(t, host, key, name, format, start, fuel + 1) == Resolve(t, host, key, name, format, start, fuel)
    decreases fuel, 0, 0
  {
    if !SameKey(key, name) && !SameKey(start, name) && ToLower(name) in t.entries {
      var slots := t.entries[ToLower(name)];
      if fuel > 0 && |slots| > 0 {
        ResolveKey(t, host, key, name, format, start, fuel);
        ResolveKey(t, host, key, name, format, start, fuel + 1);
        if ExpandFrom(t, host, name, slots[0], 0, start, fuel - 1) != Err(TooDeep) {
          ExpandFuel(t, host, name, slots[0], 0, start, fuel - 1);
        }
      }
    }
  }

  /** A name that is a config key with a first slot resolves to that slot's expansion, one level
      down, formatted. */
  lemma ResolveKey(t: Table, host: Host, key: string, name: string, format: string, start: string, fuel: nat)
    requires !SameKey(key, name) && !SameKey(start, name) && ToLower(name) in t.entries
    requires fuel > 0 && |t.entries[ToLower(name)]| > 0
    ensures Resolve(t, host, key, name, format, start, fuel)
         == match ExpandFrom(t, host, name, t.entries[ToLower(name)][0], 0, start, fuel - 1)
            case Err(e) => Err(e)
            case Ok(v) => ApplyFormat(host, format, v)
  {
  }

  /** The generic overload `ReplaceTemplate(input, func)`: every match replaced by
      `func(name, format)`. */
  function ReplaceAll(s: string, pos: nat, func: (string, string) -> string): string
    requires pos <= |s|
    decreases |s| - pos
  {
    match NextMatch(s, pos)
    case None => s[pos..]
    case Some(m) => s[pos..m.start] + func(m.name, m.format) + ReplaceAll(s, m.end, func)
  }

  /** `ReplaceTemplate(input, func)`; a null `func` is rejected. */
  function ReplaceTemplate(input: string, func: Option<(string, string) -> string>): (r: Result<string, Error>)
    ensures r.Err? <==> func.None?
    ensures r.Err? ==> r.error == ArgumentNull("func")
  {
    if func.None? then Err(ArgumentNull("func")) else Ok(ReplaceAll(input, 0, func.value))
  }

  /** The leftmost match is replaced by `func(name, format)`, the text before it is kept, and
      the search resumes after it. */
  lemma ReplaceTemplateLeftmost(input: string, func: (string, string) -> string)
    requires IsMatch(input)
    ensures var m := NextMatch(input, 0).value;
      ReplaceTemplate(input, Some(func)) == Ok(input[..m.start] + func(m.name, m.format) + ReplaceAll(input, m.end, func))
  {
    assert input[0..NextMatch(input, 0).value.start] == input[..NextMatch(input, 0).value.start];
  }

  /** Text without a match is returned unchanged. */
  lemma {:induction false} ReplaceAllUnmatched(s: string, func: (string, string) -> string)
    requires !IsMatch(s)
    ensures ReplaceTemplate(s, Some(func)) == Ok(s)
  {
    assert s[0..] == s;
  }

  /** The resolution of each placeholder as a plain function of name and format, "" where it fails. */
  function Resolver(t: Table, host: Host, key: string, start: string, fuel: nat): (string, string) -> string {
    (name: string, format: string) =>
      var r := Resolve(t, host, key, name, format, start, fuel);
      if r.Ok? then r.value else ""
  }

  /** A successful `FindReplaceString` is the generic overload applied with the resolver. */
  lemma {:induction false} ExpandIsReplace(t: Table, host: Host, key: string, v: string, pos: nat, start: string, fuel: nat)
    requires pos <= |v|
    requires ExpandFrom(t, host, key, v, pos, start, fuel).Ok?
    ensures ExpandFrom(t, host, key, v, pos, start, fuel) == Ok(ReplaceAll(v, pos, Resolver(t, host, key, start, fuel)))
    decreases |v| - pos
  {
    match NextMatch(v, pos)
    case None =>
    case Some(m) =>
      ExpandIsReplace(t, host, key, v, m.end, start, fuel);
  }

  /** The two tables have the same keys, in the same order, with value arrays of the same lengths. */
  predicate SameShape(a: Table, b: Table) {
    && a.keys == b.keys && a.entries.Keys == b.entries.Keys
    && forall k :: k in a.entries ==> |a.entries[k]| == |b.entries[k]|
  }

  /** The inner loop of `ReplaceTemplate(input)` for one key: slots `i..` of its value array
      are expanded in turn against the current table, and each matching slot is rewritten in
      place before the next slot is expanded. */
  function ReplaceSlots(t: Table, host: Host, key: string, i: nat, fuel: nat): (r: Result<Table, Error>)
    requires key in t.entries && i <= |t.entries[key]|
    ensures r.Ok? ==> SameShape(t, r.value)
    decreases |t.entries[key]| - i
  {
    var slots := t.entries[key];
    if i == |slots| then Ok(t)
    else if !IsMatch(slots[i]) then ReplaceSlots(t, host, key, i + 1, fuel)
    else
      var value :- FindReplaceString(t, host, key, slots[i], key, fuel);
      ReplaceSlots(t.(entries := t.entries[key := slots[i := value]]), host, key, i + 1, fuel)
  }

  /** The outer loop of `ReplaceTemplate(input)`: the keys in snapshot order. */
  function ReplaceKeys(t: Table, host: Host, ks: seq<string>, fuel: nat): (r: Result<Table, Error>)
    requires forall k :: k in ks ==> k in t.entries
    ensures r.Ok? ==> SameShape(t, r.value)
    decreases |ks|
  {
    if ks == [] then Ok(t)
    else
      var t1 :- ReplaceSlots(t, host, ks[0], 0, fuel);
      ReplaceKeys(t1, host, ks[1..], fuel)
  }

  /** One step of the outer loop: the first key's slots, then the rest of the keys. */
  lemma ReplaceKeysStep(t: Table, host: Host, ks: seq<string>, fuel: nat)
    requires ks != [] && forall k :: k in ks ==> k in t.entries
    ensures var first := ReplaceSlots(t, host, ks[0], 0, fuel);
      ReplaceKeys(t, host, ks, fuel) == if first.Err? then Err(first.error) else ReplaceKeys(first.value, host, ks[1..], fuel)
  {
    assert ks[0] in ks;
  }

  /** `ReplaceTemplate(input)` on the whole table. */
  function ReplaceTemplates(t: Table, host: Host, fuel: nat): (r: Result<Table, Error>)
    requires Valid(t)
    ensures r.Ok? ==> Valid(r.value) && SameShape(t, r.value)
  {
    ReplaceKeys(t, host, t.keys, fuel)
  }

  /** Other keys are untouched by the rewriting of `key`. */
  lemma {:induction false} ReplaceSlotsOthers(t: Table, host: Host, key: string, i: nat, fuel: nat, k: string)
    requires key in t.entries && i <= |t.entries[key]|
    requires ReplaceSlots(t, host, key, i, fuel).Ok?
    requires k in t.entries && k != key
    ensures ReplaceSlots(t, host, key, i, fuel).value.entries[k] == t.entries[k]
    decreases |t.entries[key]| - i
  {
    var slots := t.entries[key];
    if i < |slots| {
      if !IsMatch(slots[i]) {
        ReplaceSlotsOthers(t, host, key, i + 1, fuel, k);
      } else {
        var value := FindReplaceString(t, host, key, slots[i], key, fuel).value;
        var t1 := t.(entries := t.entries[key := slots[i := value]]);
        assert ReplaceSlots(t, host, key, i, fuel) == ReplaceSlots(t1, host, key, i + 1, fuel);
        ReplaceSlotsOthers(t1, host, key, i + 1, fuel, k);
      }
    }
  }

  /** A slot before `i`, or one from `i` on that has no match, keeps its text. */
  lemma {:induction false} ReplaceSlotsKeep(t: Table, host: Host, key: string, i: nat, fuel: nat, j: nat)
    requires key in t.entries && i <= |t.entries[key]|
    requires ReplaceSlots(t, host, key, i, fuel).Ok?
    requires j < |t.entries[key]| && (j < i || !IsMatch(t.entries[key][j]))
    ensures ReplaceSlots(t, host, key, i, fuel).value.entries[key][j] == t.entries[key][j]
    decreases |t.entries[key]| - i
  {
    var slots := t.entries[key];
    if i < |slots| {
      if !IsMatch(slots[i]) {
        ReplaceSlotsKeep(t, host, key, i + 1, fuel, j);
      } else {
        var value := FindReplaceString(t, host, key, slots[i], key, fuel).value;
        var t1 := t.(entries := t.entries[key := slots[i := value]]);
        assert ReplaceSlots(t, host, key, i, fuel) == ReplaceSlots(t1, host, key, i + 1, fuel);
        assert t1.entries[key][j] == slots[j];
        ReplaceSlotsKeep(t1, host, key, i + 1, fuel, j);
      }
    }
  }

  /** A slot of `key` that has no match keeps its text, and other keys are untouched. */
  lemma ReplaceSlotsFrame(t: Table, host: Host, key: string, fuel: nat)
    requires key in t.entries
    requires ReplaceSlots(t, host, key, 0, fuel).Ok?
    ensures var r := ReplaceSlots(t, host, key, 0, fuel).value;
      && (forall k :: k in t.entries && k != key ==> r.entries[k] == t.entries[k])
      && (forall j :: 0 <= j < |t.entries[key]| && !IsMatch(t.entries[key][j])
                      ==> r.entries[key][j] == t.entries[key][j])
  {
    forall k | k in t.entries && k != key {
      ReplaceSlotsOthers(t, host, key, 0, fuel, k);
    }
    forall j | 0 <= j < |t.entries[key]| && !IsMatch(t.entries[key][j]) {
      ReplaceSlotsKeep(t, host, key, 0, fuel, j);
    }
  }

  /** Slots without a match are left untouched by the whole pass, whatever the key order. */
  lemma {:induction false} ReplaceKeysUnmatched(t: Table, host: Host, ks: seq<string>, fuel: nat)
    requires forall k :: k in ks ==> k in t.entries
    requires ReplaceKeys(t, host, ks, fuel).Ok?
    ensures var r := ReplaceKeys(t, host, ks, fuel).value;
      forall k, j :: k in t.entries && 0 <= j < |t.entries[k]| && !IsMatch(t.entries[k][j])
                     ==> r.entries[k][j] == t.entries[k][j]
    decreases |ks|
  {
    if ks != [] {
      var t1 := ReplaceSlots(t, host, ks[0], 0, fuel).value;
      ReplaceSlotsFrame(t, host, ks[0], fuel);
      ReplaceKeysUnmatched(t1, host, ks[1..], fuel);
    }
  }

  /** Keys absent from the snapshot keep their value arrays. */
  lemma {:induction false} ReplaceKeysOthers(t: Table, host: Host, ks: seq<string>, fuel: nat, k: string)
    requires forall x :: x in ks ==> x in t.entries
    requires ReplaceKeys(t, host, ks, fuel).Ok? && k in t.entries && k !in ks
    ensures ReplaceKeys(t, host, ks, fuel).value.entries[k] == t.entries[k]
    decreases |ks|
  {
    if ks != [] {
      ReplaceSlotsFrame(t, host, ks[0], fuel);
      ReplaceKeysOthers(ReplaceSlots(t, host, ks[0], 0, fuel).value, host, ks[1..], fuel, k);
    }
  }

  /** The name stops exactly at the first ',', '}' or line break. */
  lemma {:induction false} NameStopAt(s: string, from: nat, j: nat)
    requires from <= j <= |s|
    requires forall x :: from <= x < j ==> s[x] != ',' && s[x] != '}' && s[x] != '\n'
    requires j < |s| ==> s[j] == ',' || s[j] == '}' || s[j] == '\n'
    ensures NameStop(s, from) == j
    decreases j - from
  {
    if from < j {
      NameStopAt(s, from + 1, j);
    }
  }

  /** Text without an opening brace holds no match. */
  lemma {:induction false} NoBraceNoMatch(s: string, pos: nat)
    requires pos <= |s| && forall x :: pos <= x < |s| ==> s[x] != '{'
    ensures NextMatch(s, pos) == None
    decreases |s| - pos
  {
    if pos < |s| {
      NoBraceNoMatch(s, pos + 1);
    }
  }

  /** A value made of a placeholder without a format followed by plain text expands to the
      resolution of the name followed by that text. */
  lemma ExpandPlaceholderThen(t: Table, host: Host, key: string, name: string, tail: string, start: string, fuel: nat)
    requires PlainName(name) && forall x :: 0 <= x < |tail| ==> tail[x] != '{'
    ensures var r := Resolve(t, host, key, name, "", start, fuel);
      FindReplaceString(t, host, key, "{$" + name + "}" + tail, start, fuel)
        == if r.Ok? then Ok(r.value + tail) else r
  {
    var v := "{$" + name + "}" + tail;
    var e := |name| + 3;
    NameStopAt(v, 2, |name| + 2);
    assert v[2..|name| + 2] == name;
    assert MatchAt(v, 0) == Some(Match(0, name, "", e));
    assert NextMatch(v, 0) == Some(Match(0, name, "", e));
    NoBraceNoMatch(v, e);
    assert v[e..] == tail && v[0..0] == "";
    assert ExpandFrom(t, host, key, v, e, start, fuel) == Ok(tail);
    var rep := Resolve(t, host, key, name, "", start, fuel);
    if rep.Ok? {
      assert v[0..0] + rep.value + tail == rep.value + tail;
      assert ExpandFrom(t, host, key, v, 0, start, fuel) == Ok(v[0..0] + rep.value + tail);
    }
  }

  /** A value that is a single placeholder without a format expands to the resolution of its name. */
  lemma ExpandSingle(t: Table, host: Host, key: string, name: string, start: string, fuel: nat)
    requires PlainName(name)
    ensures FindReplaceString(t, host, key, "{$" + name + "}", start, fuel)
         == Resolve(t, host, key, name, "", start, fuel)
  {
    ExpandPlaceholderThen(t, host, key, name, "", start, fuel);
    assert "{$" + name + "}" + "" == "{$" + name + "}";
    var r := Resolve(t, host, key, name, "", start, fuel);
    if r.Ok? {
      assert r.value + "" == r.value;
    }
  }

  /** A value that is a single placeholder with a format expands to the resolution of its name
      with that format. */
  lemma ExpandFormattedSingle(t: Table, host: Host, key: string, name: string, format: string, start: string, fuel: nat)
    requires PlainName(name) && forall x :: 0 <= x < |format| ==> format[x] != '\n'
    ensures FindReplaceString(t, host, key, "{$" + name + "," + format + "}", start, fuel)
         == Resolve(t, host, key, name, format, start, fuel)
  {
    var v := "{$" + name + "," + format + "}";
    var n := |name| + 2;
    NameStopAt(v, 2, n);
    assert v[2..n] == name && v[n] == ',';
    assert forall x :: n + 1 <= x < |v| ==> v[x] != '\n' by {
      forall x | n + 1 <= x < |v| ensures v[x] != '\n' {
        if x < |v| - 1 {
          assert v[x] == format[x - n - 1];
        }
      }
    }
    assert LineEnd(v, n + 1) == |v|;
    assert LastBrace(v, n + 1, |v|) == Some(|v| - 1);
    assert v[n + 1..|v| - 1] == format;
    assert MatchAt(v, 0) == Some(Match(0, name, format, |v|));
    assert NextMatch(v, 0) == Some(Match(0, name, format, |v|));
    assert NextMatch(v, |v|) == None;
    assert v[|v|..] == "" && v[0..0] == "";
    assert ExpandFrom(t, host, key, v, |v|, start, fuel) == Ok("");
    var rep := Resolve(t, host, key, name, format, start, fuel);
    if rep.Ok? {
      assert v[0..0] + rep.value + "" == rep.value;
      assert ExpandFrom(t, host, key, v, 0, start, fuel) == Ok(v[0..0] + rep.value + "");
    }
  }

  /** A placeholder naming another config key expands to that key's first slot, itself expanded
      one level down as the expansion of that key. */
  lemma KeyPlaceholderExpands(t: Table, host: Host, key: string, name: string, start: string, fuel: nat)
    requires PlainName(name) && !SameKey(key, name) && !SameKey(start, name)
    requires ToLower(name) in t.entries && |t.entries[ToLower(name)]| > 0 && fuel > 0
    ensures FindReplaceString(t, host, key, "{$" + name + "}", start, fuel)
         == FindReplaceString(t, host, name, t.entries[ToLower(name)][0], start, fuel - 1)
  {
    ExpandSingle(t, host, key, name, start, fuel);
    ResolveKey(t, host, key, name, "", start, fuel);
  }

  /** With a format, that expansion is passed to `string.Format`; a failure one level down, or
      a format `string.Format` rejects, fails the whole expansion. */
  lemma KeyPlaceholderFormatted(t: Table, host: Host, key: string, name: string, format: string, start: string, fuel: nat)
    requires PlainName(name) && (forall x :: 0 <= x < |format| ==> format[x] != '\n')
    requires !SameKey(key, name) && !SameKey(start, name)
    requires ToLower(name) in t.entries && |t.entries[ToLower(name)]| > 0 && fuel > 0
    ensures var inner := FindReplaceString(t, host, name, t.entries[ToLower(name)][0], start, fuel - 1);
      var r := FindReplaceString(t, host, key, "{$" + name + "," + format + "}", start, fuel);
      && (inner.Err? ==> r == inner)
      && (inner.Ok? ==> r == ApplyFormat(host, format, inner.value))
  {
    ExpandFormattedSingle(t, host, key, name, format, start, fuel);
    ResolveKey(t, host, key, name, format, start, fuel);
  }

  /** A placeholder naming a global variable that is no config key expands to the variable's
      text, rendered with the format when it is formattable. */
  lemma GlobalPlaceholder(t: Table, host: Host, key: string, name: string, format: string, start: string, fuel: nat)
    requires PlainName(name) && (forall x :: 0 <= x < |format| ==> format[x] != '\n')
    requires !SameKey(key, name) && !SameKey(start, name)
    requires ToLower(name) !in t.entries && name in host.globals
    ensures FindReplaceString(t, host, key, "{$" + name + "," + format + "}", start, fuel)
         == RenderGlobal(host.globals[name], format)
  {
    ExpandFormattedSingle(t, host, key, name, format, start, fuel);
  }

  /** The table A = "{$B}", B = "{$C}", C = "{$B}". */
  const CycleTable: Table := Table(["a", "b", "c"], map["a" := ["{$B}"], "b" := ["{$C}"], "c" := ["{$B}"]])

  /** Expanding B's reference to C (or C's to B) runs out of depth when the referenced key's
      own value, a reference back, does one level down. */
  lemma CycleStep(host: Host, fuel: nat, from: string, to: string)
    requires (from, to) == ("B", "C") || (from, to) == ("C", "B")
    requires fuel > 0 ==> FindReplaceString(CycleTable, host, to, "{$" + from + "}", "A", fuel - 1) == Err(TooDeep)
    ensures FindReplaceString(CycleTable, host, from, "{$" + to + "}", "A", fuel) == Err(TooDeep)
  {
    assert ToLower("A") == "a" && ToLower("B") == "b" && ToLower("C") == "c";
    if from == "B" {
      assert "{$" + from + "}" == "{$B}" && CycleTable.entries[ToLower(to)] == ["{$B}"];
    } else {
      assert "{$" + from + "}" == "{$C}" && CycleTable.entries[ToLower(to)] == ["{$C}"];
    }
    ExpandSingle(CycleTable, host, from, to, "A", fuel);
    assert Resolve(CycleTable, host, from, to, "", "A", fuel) == Err(TooDeep);
  }

  /** Expanding B, from start key A, bounces between B and C: neither reference check fires. */
  lemma {:induction false} CycleBounces(host: Host, fuel: nat)
    ensures FindReplaceString(CycleTable, host, "B", "{$C}", "A", fuel) == Err(TooDeep)
    decreases fuel
  {
    assert "{$" + "B" + "}" == "{$B}" && "{$" + "C" + "}" == "{$C}";
    if fuel > 1 {
      CycleBounces(host, fuel - 2);
    }
    if fuel > 0 {
      CycleStep(host, fuel - 1, "C", "B");
    }
    CycleStep(host, fuel, "B", "C");
  }

  /** The cycle A -> B -> C -> B is never reported as a loop: whatever the depth bound, the
      expansion of A exhausts it (the source recurses until the stack overflows). */
  lemma CycleExhaustsDepth(host: Host, fuel: nat)
    ensures FindReplaceString(CycleTable, host, "A", "{$B}", "A", fuel) == Err(TooDeep)
  {
    assert ToLower("A") == "a" && ToLower("B") == "b";
    assert PlainName("B");
    assert CycleTable.entries["b"] == ["{$C}"];
    assert "{$" + "B" + "}" == "{$B}";
    ExpandSingle(CycleTable, host, "A", "B", "A", fuel);
    if fuel > 0 {
      CycleBounces(host, fuel - 1);
      assert ExpandFrom(CycleTable, host, "B", "{$C}", 0, "A", fuel - 1) == Err(TooDeep);
    }
    assert Resolve(CycleTable, host, "A", "B", "", "A", fuel) == Err(TooDeep);
  }

  /** The table A = "{$B}", B = "{$A}". */
  const MutualTable: Table := Table(["a", "b"], map["a" := ["{$B}"], "b" := ["{$A}"]])

  /** Expanding A meets B, whose value names the start key A: a loop reference, at any depth
      bound that reaches B. */
  lemma MutualReference(host: Host, fuel: nat)
    requires fuel >= 1
    ensures FindReplaceString(MutualTable, host, "a", "{$B}", "a", fuel) == Err(LoopReference("A", "a"))
  {
    var t := MutualTable;
    assert ToLower("A") == "a" && ToLower("B") == "b" && ToLower("a") == "a";
    assert PlainName("A") && PlainName("B");
    assert t.entries["b"] == ["{$A}"];
    assert "{$" + "A" + "}" == "{$A}" && "{$" + "B" + "}" == "{$B}";
    ExpandSingle(t, host, "B", "A", "a", fuel - 1);
    assert Resolve(t, host, "B", "A", "", "a", fuel - 1) == Err(LoopReference("A", "a"));
    ExpandSingle(t, host, "a", "B", "a", fuel);
    assert Resolve(t, host, "a", "B", "", "a", fuel) == Err(LoopReference("A", "a"));
  }

  /** The whole pass over A = "{$B}", B = "{$A}" fails with the loop reference. */
  lemma MutualReferenceFails(host: Host, fuel: nat)
    requires fuel >= 1
    ensures ReplaceTemplates(MutualTable, host, fuel) == Err(LoopReference("A", "a"))
  {
    var t := MutualTable;
    assert t.entries["a"] == ["{$B}"] && t.keys[0] == "a";
    MutualReference(host, fuel);
    assert IsMatch("{$B}") by {
      assert FindReplaceString(t, host, "a", "{$B}", "a", fuel).Err?;
    }
    assert ReplaceSlots(t, host, "a", 0, fuel) == Err(LoopReference("A", "a"));
  }

  /** The table A = "X", B = "{$A}-Y". */
  const ChainTable: Table := Table(["a", "b"], map["a" := ["X"], "b" := ["{$A}-Y"]])

  /** B's value "{$A}-Y" expands to "X-Y". */
  lemma ChainValue(host: Host, fuel: nat)
    requires fuel >= 1
    ensures FindReplaceString(ChainTable, host, "b", "{$A}-Y", "b", fuel) == Ok("X-Y")
  {
    var t := ChainTable;
    assert ToLower("A") == "a" && ToLower("b") == "b";
    assert t.entries["a"] == ["X"];
    assert "{$" + "A" + "}" + "-Y" == "{$A}-Y";
    assert PlainName("A");
    ExpandPlaceholderThen(t, host, "b", "A", "-Y", "b", fuel);
    NoBraceNoMatch("X", 0);
    assert "X"[0..] == "X";
    assert ExpandFrom(t, host, "A", "X", 0, "b", fuel - 1) == Ok("X");
    assert Resolve(t, host, "b", "A", "", "b", fuel) == Ok("X");
    assert "X" + "-Y" == "X-Y";
  }

  /** The pass leaves A's slot alone and rewrites B's slot. */
  lemma ChainSlots(host: Host, fuel: nat)
    requires fuel >= 1
    ensures ReplaceSlots(ChainTable, host, "a", 0, fuel) == Ok(ChainTable)
    ensures ReplaceSlots(ChainTable, host, "b", 0, fuel)
         == Ok(Table(["a", "b"], map["a" := ["X"], "b" := ["X-Y"]]))
  {
    var t := ChainTable;
    assert t.entries["a"] == ["X"] && t.entries["b"] == ["{$A}-Y"];
    NoBraceNoMatch("X", 0);
    assert !IsMatch("X");
    ChainValue(host, fuel);
    NoBraceNoMatch("{$A}-Y", 4);
    var t2 := t.(entries := t.entries["b" := ["{$A}-Y"][0 := "X-Y"]]);
    assert ["{$A}-Y"][0 := "X-Y"] == ["X-Y"];
    assert t.entries["b" := ["X-Y"]] == map["a" := ["X"], "b" := ["X-Y"]];
    assert t2 == Table(["a", "b"], map["a" := ["X"], "b" := ["X-Y"]]);
  }

  /** The pass rewrites B to "X-Y" and leaves A alone. */
  lemma ChainExpands(host: Host, fuel: nat)
    requires fuel >= 1
    ensures ReplaceTemplates(ChainTable, host, fuel)
         == Ok(Table(["a", "b"], map["a" := ["X"], "b" := ["X-Y"]]))
  {
    ChainSlots(host, fuel);
    assert ChainTable.keys[1..] == ["b"] && ["b"][1..] == [];
  }
}
