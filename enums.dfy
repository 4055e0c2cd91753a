/** `ParseEnum` and the part of `Enum.Parse(Type, string)` it relies on, for enums whose
    underlying type is a 32-bit signed integer. */
module Enums {
  import opened Wrappers
  import opened Text

  const Int32Min: int := -0x8000_0000
  const Int32Max: int := 0x7FFF_FFFF

  /** A type as the accessor sees it: its full name, whether it is an enum, whether it carries
      `[Flags]`, and its member names with their values. */
  datatype EnumType = EnumType(fullName: string, isEnum: bool, flags: bool, members: map<string, bv32>)

  /** The bitwise or of two enum values. */
  function Or(x: bv32, y: bv32): bv32 {
    x | y
  }

  /** Two's-complement bits of an `int` value. */
  function ToBits(n: int): (b: bv32)
    requires Int32Min <= n <= Int32Max
    ensures 0 <= n ==> b == n as bv32
  {
    if n >= 0 then n as bv32 else (n + 0x1_0000_0000) as bv32
  }

  /** `Int32.Parse` with `NumberStyles.Integer` on trimmed text: an optional sign followed by
      at least one decimal digit; `None` is a format failure. */
  function ParseInteger(s: string): (r: Option<int>)
    ensures r.Some? <==> (s != [] && AllDigits(s)) || (|s| >= 2 && (s[0] == '-' || s[0] == '+') && AllDigits(s[1..]))
    ensures s != [] && AllDigits(s) ==> r == Some(DecimalValue(s))
    ensures |s| >= 2 && s[0] == '+' && AllDigits(s[1..]) ==> r == Some(DecimalValue(s[1..]))
    ensures |s| >= 2 && s[0] == '-' && AllDigits(s[1..]) ==> r == Some(-(DecimalValue(s[1..]) as int))
  {
    if s != [] && (s[0] == '-' || s[0] == '+') then
      var digits := s[1..];
      if digits != [] && AllDigits(digits) then
        var magnitude: int := DecimalValue(digits);
        Some(if s[0] == '-' then -magnitude else magnitude)
      else None
    else if s != [] && AllDigits(s) then Some(DecimalValue(s))
    else None
  }

  /** The bitwise or of the values of comma-separated member names, each trimmed and looked up
      case-sensitively; `None` when some piece is not a member name. */
  function NamesValue(members: map<string, bv32>, pieces: seq<string>): (r: Option<bv32>)
    ensures r.Some? <==> forall p :: p in pieces ==> Trim(p) in members
    ensures r.Some? ==> forall p :: p in pieces ==> Or(r.value, members[Trim(p)]) == r.value
    decreases |pieces|
  {
    if pieces == [] then Some(0)
    else if Trim(pieces[0]) !in members then None
    else
      var rest := NamesValue(members, pieces[1..]);
      if rest.None? then None else Some(Or(members[Trim(pieces[0])], rest.value))
  }

  /** `Enum.Parse(enumType, value)`: blank text fails; text opening with a digit or a sign is
      read as a number when it is one (an out-of-range number fails); anything else is a
      comma-separated list of member names. */
  function EnumParse(e: EnumType, value: string): (r: Result<bv32, Error>)
    ensures r.Err? ==> r.error == EnumParseError(value)
    ensures Trim(value) == "" ==> r.Err?
    ensures r.Ok? ==>
      var s, n := Trim(value), ParseInteger(Trim(value));
      || (n.Some? && Int32Min <= n.value <= Int32Max && r.value == ToBits(n.value))
      || NamesValue(e.members, Split(s, {','})) == Some(r.value)
    ensures var n := ParseInteger(Trim(value));
      n.Some? && Int32Min <= n.value <= Int32Max ==> r == Ok(ToBits(n.value))
    ensures var n := ParseInteger(Trim(value));
      n.Some? && !(Int32Min <= n.value <= Int32Max) ==> r.Err?
    ensures var s, n := Trim(value), ParseInteger(Trim(value));
      s != "" && n.None? ==> (r.Ok? <==> NamesValue(e.members, Split(s, {','})).Some?)
    ensures var s, n := Trim(value), ParseInteger(Trim(value));
      n.None? && r.Ok? ==> NamesValue(e.members, Split(s, {','})) == Some(r.value)
  {
    var s := Trim(value);
    if s == "" then Err(EnumParseError(value))
    else
      var number := if IsDigit(s[0]) || s[0] == '-' || s[0] == '+' then ParseInteger(s) else None;
      assert number == ParseInteger(s);
      if number.Some? then
        if Int32Min <= number.value <= Int32Max then Ok(ToBits(number.value))
        else Err(EnumParseError(value))
      else
        match NamesValue(e.members, Split(s, {','}))
        case None => Err(EnumParseError(value))
        case Some(bits) => Ok(bits)
  }

  /** `ParseEnum(enumType, str)`: a type that is not an enum is rejected; a `[Flags]` enum
      reads spaces as separators. */
  function ParseEnum(e: EnumType, str: string): (r: Result<bv32, Error>)
    ensures r == Err(NotEnumType(e.fullName)) <==> !e.isEnum
  {
    if !e.isEnum then Err(NotEnumType(e.fullName))
    else if e.flags then EnumParse(e, ReplaceChar(str, ' ', ','))
    else EnumParse(e, str)
  }

  /** A member name as it would be written: non-empty, not opening like a number, and free of
      commas and white space. */
  predicate PlainMemberName(a: string) {
    && a != [] && !IsDigit(a[0]) && a[0] != '-' && a[0] != '+'
    && forall i :: 0 <= i < |a| ==> a[i] != ',' && !IsWhiteSpace(a[i])
  }

  /** A single member name, written as declared, parses to that member's value. */
  lemma SingleName(e: EnumType, a: string)
    requires e.isEnum && a in e.members && PlainMemberName(a)
    ensures ParseEnum(e, a) == Ok(e.members[a])
  {
    assert ReplaceChar(a, ' ', ',') == a;
    TrimNoOp(a);
    assert ParseInteger(a).None?;
    SplitNone(a, {','});
    NamesSingle(e.members, a);
  }

  /** The decimal rendering of a non-negative value in range parses back to that value. */
  lemma NumberRoundTrip(e: EnumType, n: nat)
    requires e.isEnum && n <= Int32Max
    ensures ParseEnum(e, DecimalString(n)) == Ok(n as bv32)
  {
    var s := DecimalString(n);
    assert forall i :: 0 <= i < |s| ==> IsDigit(s[i]);
    assert ReplaceChar(s, ' ', ',') == s;
    TrimNoOp(s);
    DecimalRoundTrip(n);
    assert ParseInteger(s) == Some(n);
  }

  /** The decimal rendering of a negative value in range, after a minus sign, parses back to
      that value's two's-complement bits. */
  lemma NegativeNumberRoundTrip(e: EnumType, n: nat)
    requires e.isEnum && 1 <= n <= -Int32Min
    ensures ParseEnum(e, "-" + DecimalString(n)) == Ok(ToBits(-(n as int)))
  {
    var digits := DecimalString(n);
    var s := "-" + digits;
    assert s[1..] == digits;
    assert s[|s| - 1] == digits[|digits| - 1];
    assert IsDigit(s[|s| - 1]);
    assert ReplaceChar(s, ' ', ',') == s;
    TrimNoOp(s);
    DecimalRoundTrip(n);
    assert ParseInteger(s) == Some(-(n as int));
  }

  /** A decimal number above the int32 range is rejected, not wrapped. */
  lemma NumberOutOfRange(e: EnumType, n: nat)
    requires e.isEnum && n > Int32Max
    ensures ParseEnum(e, DecimalString(n)).Err?
  {
    var s := DecimalString(n);
    assert forall i :: 0 <= i < |s| ==> IsDigit(s[i]);
    assert ReplaceChar(s, ' ', ',') == s;
    TrimNoOp(s);
    DecimalRoundTrip(n);
    assert ParseInteger(s) == Some(n);
  }

  lemma OrAssociative(x: bv32, y: bv32, z: bv32)
    ensures Or(x, Or(y, z)) == Or(Or(x, y), z)
  {
  }

  lemma OrZero(x: bv32)
    ensures Or(0, x) == x
  {
  }

  /** The pieces of a list in two parts: their values are or-ed together, and the list fails
      when either part does. */
  lemma {:induction false} NamesValueAppend(members: map<string, bv32>, a: seq<string>, b: seq<string>)
    ensures var va, vb := NamesValue(members, a), NamesValue(members, b);
      NamesValue(members, a + b) == if va.Some? && vb.Some? then Some(Or(va.value, vb.value)) else None
    decreases |a|
  {
    if a == [] {
      assert a + b == b;
      var vb := NamesValue(members, b);
      if vb.Some? {
        OrZero(vb.value);
      }
    } else {
      assert (a + b)[0] == a[0] && (a + b)[1..] == a[1..] + b;
      NamesValueAppend(members, a[1..], b);
      if Trim(a[0]) in members {
        var x := members[Trim(a[0])];
        var ra, vb := NamesValue(members, a[1..]), NamesValue(members, b);
        if ra.Some? && vb.Some? {
          OrAssociative(x, ra.value, vb.value);
        }
      }
    }
  }

  /** The names of two members separated as `a + sep + b` split into the pieces `a` and `rest`. */
  lemma SplitPair(a: string, rest: string)
    requires forall i :: 0 <= i < |a| ==> a[i] != ','
    ensures Split(a + [','] + rest, {','}) == [a] + Split(rest, {','})
  {
    SplitAtSeparator(a, ',', rest, {','});
    SplitNone(a, {','});
  }

  /** Turning spaces into commas in `a + " " + b`. */
  lemma SpaceToComma(a: string, b: string)
    requires PlainMemberName(a) && PlainMemberName(b)
    ensures ReplaceChar(a + " " + b, ' ', ',') == a + [','] + b
  {
    var v := a + " " + b;
    var r := ReplaceChar(v, ' ', ',');
    forall i | 0 <= i < |v| ensures r[i] == (a + [','] + b)[i] {
      if i < |a| {
        assert v[i] == a[i];
      } else if i > |a| {
        assert v[i] == b[i - |a| - 1];
      }
    }
  }

  /** One piece naming a member. */
  lemma NamesSingle(members: map<string, bv32>, b: string)
    requires Trim(b) in members
    ensures NamesValue(members, [b]) == Some(members[Trim(b)])
  {
    assert [b][1..] == [];
    assert NamesValue(members, [b]).Some?;
  }

  /** Two pieces naming members. */
  lemma NamesPair(members: map<string, bv32>, a: string, b: string)
    requires Trim(a) in members && Trim(b) in members
    ensures NamesValue(members, [a, b]) == Some(Or(members[Trim(a)], members[Trim(b)]))
  {
    var ps := [a, b];
    NamesSingle(members, b);
    assert ps[0] == a && ps[1..] == [b];
    var rest := NamesValue(members, ps[1..]);
    assert rest == Some(members[Trim(b)]);
    assert NamesValue(members, ps) == Some(Or(members[Trim(a)], rest.value));
  }

  /** A comma-separated pair of member names parses to the or of their values. */
  lemma ParseNamePair(e: EnumType, a: string, b: string)
    requires a in e.members && b in e.members
    requires PlainMemberName(a) && PlainMemberName(b)
    ensures EnumParse(e, a + [','] + b) == Ok(Or(e.members[a], e.members[b]))
  {
    var s := a + [','] + b;
    TrimNoOp(s);
    assert s[0] == a[0];
    SplitPair(a, b);
    SplitNone(b, {','});
    assert Split(s, {','}) == [a, b];
    TrimNoOp(a);
    TrimNoOp(b);
    NamesPair(e.members, a, b);
  }

  /** A `[Flags]` enum accepts member names separated by a space. */
  lemma FlagsSpaceSeparated(e: EnumType, a: string, b: string)
    requires e.isEnum && e.flags && a in e.members && b in e.members
    requires PlainMemberName(a) && PlainMemberName(b)
    ensures ParseEnum(e, a + " " + b) == Ok(Or(e.members[a], e.members[b]))
  {
    SpaceToComma(a, b);
    ParseNamePair(e, a, b);
  }

  /** With a space turned into a comma, ", " leaves an empty piece, which names no member. */
  lemma DoubleCommaRejected(e: EnumType, a: string, b: string)
    requires a in e.members && b in e.members && "" !in e.members
    requires PlainMemberName(a) && PlainMemberName(b)
    ensures EnumParse(e, a + [','] + ([','] + b)).Err?
  {
    var s := a + [','] + ([','] + b);
    TrimNoOp(s);
    assert s[0] == a[0];
    SplitPair(a, [','] + b);
    assert "" + [','] + b == [','] + b;
    SplitPair("", b);
    assert "" in Split(s, {','});
    assert Trim("") == "";
  }

  /** Trimming a name preceded by one space. */
  lemma TrimLeadingSpace(b: string)
    requires PlainMemberName(b)
    ensures Trim(" " + b) == b
  {
    assert TrimEnd(" " + b) == " " + b;
    assert (" " + b)[1..] == b;
    TrimNoOp(b);
  }

  /** ", " between two member names, read by an ordinary enum. */
  lemma ParseSpacedPair(e: EnumType, a: string, b: string)
    requires a in e.members && b in e.members
    requires PlainMemberName(a) && PlainMemberName(b)
    ensures EnumParse(e, a + [','] + (" " + b)) == Ok(Or(e.members[a], e.members[b]))
  {
    var s := a + [','] + (" " + b);
    TrimNoOp(s);
    assert s[0] == a[0];
    SplitPair(a, " " + b);
    SplitNone(" " + b, {','});
    assert Split(s, {','}) == [a, " " + b];
    TrimLeadingSpace(b);
    TrimNoOp(a);
    NamesPair(e.members, a, " " + b);
  }

  /** The separator `Enum.ToString` writes, ", ", is accepted for an ordinary enum but, once the
      space is turned into a second comma, rejected for a `[Flags]` enum. */
  lemma CommaSpaceSeparated(e: EnumType, a: string, b: string)
    requires e.isEnum && a in e.members && b in e.members && "" !in e.members
    requires PlainMemberName(a) && PlainMemberName(b)
    ensures e.flags ==> ParseEnum(e, a + ", " + b).Err?
    ensures !e.flags ==> ParseEnum(e, a + ", " + b) == Ok(Or(e.members[a], e.members[b]))
  {
    var v := a + ", " + b;
    if e.flags {
      assert ReplaceChar(v, ' ', ',') == a + [','] + ([','] + b) by {
        var r := ReplaceChar(v, ' ', ',');
        forall i | 0 <= i < |v| ensures r[i] == (a + [','] + ([','] + b))[i] {
          if i < |a| {
            assert v[i] == a[i];
          } else if i > |a| + 1 {
            assert v[i] == b[i - |a| - 2];
          }
        }
      }
      DoubleCommaRejected(e, a, b);
    } else {
      assert v == a + [','] + (" " + b);
      ParseSpacedPair(e, a, b);
    }
  }
}
