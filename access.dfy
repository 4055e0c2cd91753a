/** Reading the loaded config table: `Contains`, `Get` and the two `Get<T>` overloads. The
    table is the value `Config.ConfigTable.Model()` of the live table. */
module Access {
  import opened Wrappers
  import opened Text
  import opened Merge
  import Enums

  /** The target type `T` of `Get<T>`, with the cast that produces a `T` from what the table holds:
      the value array itself, its first slot, its first slot parsed as a member of an enum type,
      or its first slot converted by `Convert.ChangeType` (`None` where the conversion throws). */
  datatype Target<T> =
    | StringArray(fromArray: seq<string> -> T)
    | Str(fromString: string -> T)
    | EnumOf(enumType: Enums.EnumType, fromBits: bv32 -> T)
    | Converted(change: string -> Option<T>)

  /** `Contains(name)`: the key is present, compared ignoring case. */
  predicate Contains(t: Table, name: string) {
    ToLower(name) in t.entries
  }

  /** `Get<T>(name, defaultValue)`: the default for a missing key; otherwise the stored array
      cast to `T`. Every exception inside (an empty array, an enum value that does not parse, a
      conversion that fails) is caught and gives the default too. */
  function GetOr<T>(t: Table, name: string, target: Target<T>, defaultValue: T): (r: T)
    ensures !Contains(t, name) ==> r == defaultValue
  {
    if !Contains(t, name) then defaultValue
    else
      var v := t.entries[ToLower(name)];
      match target
      case StringArray(fromArray) => fromArray(v)
      case Str(fromString) => if |v| == 0 then defaultValue else fromString(v[0])
      case EnumOf(e, fromBits) =>
        if |v| == 0 then defaultValue
        else (match Enums.ParseEnum(e, v[0])
              case Ok(bits) => fromBits(bits)
              case Err(_) => defaultValue)
      case Converted(change) =>
        if |v| == 0 then defaultValue
        else (match change(v[0])
              case Some(x) => x
              case None => defaultValue)
  }

  /** `Get<T>(name)`: a missing key throws; otherwise `Get<T>(name, default(T))`, where `zero`
      is `default(T)`. */
  function Get<T>(t: Table, name: string, target: Target<T>, zero: T): (r: Result<T, Error>)
    ensures r.Err? <==> !Contains(t, name)
    ensures r.Err? ==> r.error == NotKey(name)
    ensures r.Ok? ==> r.value == GetOr(t, name, target, zero)
    ensures Contains(t, name) && target.StringArray? ==> r == Ok(target.fromArray(t.entries[ToLower(name)]))
    ensures Contains(t, name) && target.Str? && |t.entries[ToLower(name)]| > 0
            ==> r == Ok(target.fromString(t.entries[ToLower(name)][0]))
  {
    if !Contains(t, name) then Err(NotKey(name)) else Ok(GetOr(t, name, target, zero))
  }

  /** `Get(name)`: `Get<string>(name)`; in a valid table it is the first slot of the key. */
  function GetString(t: Table, name: string): (r: Result<string, Error>)
    requires Valid(t)
    ensures r.Err? <==> !Contains(t, name)
    ensures r.Err? ==> r.error == NotKey(name)
    ensures r.Ok? ==> r.value == t.entries[ToLower(name)][0]
  {
    Get(t, name, Str(s => s), "")
  }

  /** Keys match ignoring case: two spellings of a name read the same entry. */
  lemma GetIgnoresCase<T>(t: Table, a: string, b: string, target: Target<T>, defaultValue: T)
    requires ToLower(a) == ToLower(b)
    ensures Contains(t, a) == Contains(t, b)
    ensures GetOr(t, a, target, defaultValue) == GetOr(t, b, target, defaultValue)
  {
  }

  /** Reading back a merged value: a non-append entry that no later entry overrides is what
      `Get<string[]>` and `Get<string>` return for its name. */
  lemma GetLastWins<T>(t: Table, es: seq<Entry>, i: nat, fromArray: seq<string> -> T,
                       fromString: string -> T, defaultValue: T)
    requires Valid(t) && forall e :: e in es ==> |e.values| >= 1
    requires i < |es| && es[i].name !in Append
    requires forall j :: i < j < |es| ==> ToLower(es[j].name) != ToLower(es[i].name)
    ensures GetOr(MergeEntries(t, es), es[i].name, StringArray(fromArray), defaultValue) == fromArray(es[i].values)
    ensures GetOr(MergeEntries(t, es), es[i].name, Str(fromString), defaultValue) == fromString(es[i].values[0])
  {
    assert es[i] in es;
    LastWins(t, es, i);
  }

  /** In a valid table `Get<string>` never falls back to the default for a present key. */
  lemma GetStringPresent<T>(t: Table, name: string, fromString: string -> T, defaultValue: T)
    requires Valid(t) && Contains(t, name)
    ensures GetOr(t, name, Str(fromString), defaultValue) == fromString(t.entries[ToLower(name)][0])
  {
  }

  /** An enum value stored as a decimal number in int32 range reads back as that number. */
  lemma GetEnumNumber<T>(t: Table, name: string, e: Enums.EnumType, n: nat, fromBits: bv32 -> T, defaultValue: T)
    requires Valid(t) && Contains(t, name) && t.entries[ToLower(name)][0] == DecimalString(n)
    requires e.isEnum && n <= Enums.Int32Max
    ensures GetOr(t, name, EnumOf(e, fromBits), defaultValue) == fromBits(n as bv32)
  {
    Enums.NumberRoundTrip(e, n);
  }

  /** An enum value that does not parse gives the default instead of an exception. */
  lemma GetEnumInvalid<T>(t: Table, name: string, e: Enums.EnumType, fromBits: bv32 -> T, defaultValue: T)
    requires Valid(t) && Contains(t, name)
    requires Enums.ParseEnum(e, t.entries[ToLower(name)][0]).Err?
    ensures GetOr(t, name, EnumOf(e, fromBits), defaultValue) == defaultValue
  {
  }

  /** A conversion that fails gives the default instead of an exception. */
  lemma GetConvertedInvalid<T>(t: Table, name: string, change: string -> Option<T>, defaultValue: T)
    requires Valid(t) && Contains(t, name) && change(t.entries[ToLower(name)][0]).None?
    ensures GetOr(t, name, Converted(change), defaultValue) == defaultValue
  {
  }
}
