/** The order in which the build runs its pre-build callbacks: static methods marked
    `[PreProcessBuild]` or named `PreProcessBuild...`, in stable ascending callback order. */
module Callbacks {
  import opened Wrappers
  import opened Text
  import Ordering

  const Int32Max: nat := 0x7FFF_FFFF
  const Prefix: string := "PreProcessBuild"

  /** A static method found while scanning the loaded assemblies: its name, the `CallbackOrder`
      of its `[PreProcessBuild]` attribute when it has one, and its parameter count. */
  datatype CallbackMethod = CallbackMethod(name: string, attributeOrder: Option<int>, parameterCount: nat)

  /** `^PreProcessBuild` matches the name. */
  predicate NameMatches(name: string) {
    |Prefix| <= |name| && name[..|Prefix|] == Prefix
  }

  /** The methods the build picks up: those with the attribute or a matching name. */
  predicate Selected(m: CallbackMethod) {
    m.attributeOrder.Some? || NameMatches(m.name)
  }

  /** `int.TryParse` on a run of digits: the value when it fits in an `int`, otherwise the
      order stays 0. */
  function DigitsValue(digits: string): int
    requires AllDigits(digits)
  {
    if DecimalValue(digits) <= Int32Max then DecimalValue(digits) else 0
  }

  /** The order a matching name encodes: after the prefix, `_` and digits give minus their
      value, digits alone give their value, and anything else gives 0. */
  function NameOrder(name: string): int {
    if !NameMatches(name) then 0
    else
      var rest := name[|Prefix|..];
      if rest != [] && rest[0] == '_' && DigitRun(rest[1..]) > 0 then
        -DigitsValue(rest[1..][..DigitRun(rest[1..])])
      else if DigitRun(rest) > 0 then DigitsValue(rest[..DigitRun(rest)])
      else 0
  }

  /** The sort key: the attribute's order wins over the name. */
  function CallbackOrder(m: CallbackMethod): (order: int)
    ensures m.attributeOrder.Some? ==> order == m.attributeOrder.value
    ensures m.attributeOrder.None? ==> order == NameOrder(m.name)
  {
    if m.attributeOrder.Some? then m.attributeOrder.value else NameOrder(m.name)
  }

  /** The selected methods, in scanning order. */
  function Select(methods: seq<CallbackMethod>): (r: seq<CallbackMethod>)
    ensures forall m :: m in r <==> m in methods && Selected(m)
    decreases |methods|
  {
    if methods == [] then []
    else (if Selected(methods[0]) then [methods[0]] else []) + Select(methods[1..])
  }

  /** Selection keeps scanning order: the selected methods of two lists in a row are those of
      the first, then those of the second. */
  lemma {:induction false} SelectAppend(a: seq<CallbackMethod>, b: seq<CallbackMethod>)
    ensures Select(a + b) == Select(a) + Select(b)
    decreases |a|
  {
    if a == [] {
      assert a + b == b;
    } else {
      assert (a + b)[0] == a[0] && (a + b)[1..] == a[1..] + b;
      SelectAppend(a[1..], b);
    }
  }

  /** Registration in order: the first method that takes parameters aborts the build. */
  function Register(ordered: seq<CallbackMethod>): (r: Result<seq<CallbackMethod>, Error>)
    ensures r.Ok? <==> forall m :: m in ordered ==> m.parameterCount == 0
    ensures r.Ok? ==> r.value == ordered
    decreases |ordered|
  {
    if ordered == [] then Ok([])
    else if ordered[0].parameterCount != 0 then Err(NotParameterless(ordered[0].name))
    else
      var rest :- Register(ordered[1..]);
      Ok([ordered[0]] + rest)
  }

  /** The callbacks `BuildPlayer` registers, in the order it registers them. */
  function PreBuildCallbacks(methods: seq<CallbackMethod>): (r: Result<seq<CallbackMethod>, Error>)
    ensures r.Ok? ==> Ordering.SortedBy(r.value, CallbackOrder)
    ensures r.Ok? ==> multiset(r.value) == multiset(Select(methods))
    ensures r.Ok? ==> forall k :: Ordering.WithKey(r.value, CallbackOrder, k)
                                == Ordering.WithKey(Select(methods), CallbackOrder, k)
    ensures r.Err? <==> exists m :: m in methods && Selected(m) && m.parameterCount != 0
  {
    var selected := Select(methods);
    Ordering.OrderByCorrect(selected, CallbackOrder);
    var ordered := Ordering.OrderBy(selected, CallbackOrder);
    assert forall m :: m in ordered <==> m in selected by {
      assert forall m :: m in ordered <==> m in multiset(ordered);
    }
    Register(ordered)
  }

  /** The order a name `PreProcessBuild` + digits + tail encodes, the tail not opening with a
      digit. */
  lemma {:induction false} DigitsThen(digits: string, tail: string)
    requires AllDigits(digits) && (tail != [] ==> !IsDigit(tail[0]))
    ensures DigitRun(digits + tail) == |digits|
    decreases |digits|
  {
    if digits != [] {
      DigitsThen(digits[1..], tail);
      assert (digits + tail)[1..] == digits[1..] + tail;
    } else {
      assert digits + tail == tail;
    }
  }

  /** `PreProcessBuildN...` has order N, for N in range. */
  lemma PositiveNameOrder(n: nat, tail: string)
    requires n <= Int32Max && (tail != [] ==> !IsDigit(tail[0]))
    ensures NameOrder(Prefix + DecimalString(n) + tail) == n
  {
    var d := DecimalString(n);
    DecimalRoundTrip(n);
    DigitsThen(d, tail);
    var name := Prefix + d + tail;
    assert name[..|Prefix|] == Prefix && name[|Prefix|..] == d + tail;
    assert (d + tail)[..|d|] == d;
    assert d[0] != '_';
  }

  /** `PreProcessBuild_N...` has order -N, for N in range. */
  lemma NegativeNameOrder(n: nat, tail: string)
    requires n <= Int32Max && (tail != [] ==> !IsDigit(tail[0]))
    ensures NameOrder(Prefix + "_" + DecimalString(n) + tail) == -(n as int)
  {
    var d := DecimalString(n);
    DecimalRoundTrip(n);
    DigitsThen(d, tail);
    var name := Prefix + "_" + d + tail;
    assert name[..|Prefix|] == Prefix && name[|Prefix|..] == "_" + d + tail;
    assert ("_" + d + tail)[1..] == d + tail;
    assert (d + tail)[..|d|] == d;
  }

  /** A name with nothing numeric after the prefix has order 0. */
  lemma BareNameOrder(tail: string)
    requires tail != [] ==> !IsDigit(tail[0]) && tail[0] != '_'
    ensures NameOrder(Prefix + tail) == 0
  {
    var name := Prefix + tail;
    assert name[..|Prefix|] == Prefix && name[|Prefix|..] == tail;
    if tail != [] {
      assert DigitRun(tail) == 0;
    }
  }

  /** A number that does not fit in an `int` leaves the order at 0. */
  lemma NameOrderOverflow(n: nat)
    requires n > Int32Max
    ensures NameOrder(Prefix + DecimalString(n)) == 0
  {
    var d := DecimalString(n);
    DecimalRoundTrip(n);
    DigitsThen(d, "");
    var name := Prefix + d;
    assert name[..|Prefix|] == Prefix && name[|Prefix|..] == d + "";
    assert d[..|d|] == d;
  }

  /** A selected method with a lower callback order is registered before one with a higher
      order: both are registered, and every position of the first precedes every position of
      the second. */
  lemma EarlierOrderRunsFirst(methods: seq<CallbackMethod>, a: CallbackMethod, b: CallbackMethod)
    requires PreBuildCallbacks(methods).Ok?
    requires a in methods && Selected(a) && b in methods && Selected(b)
    requires CallbackOrder(a) < CallbackOrder(b)
    ensures var r := PreBuildCallbacks(methods).value;
      && a in r && b in r
      && forall i, j :: 0 <= i < |r| && 0 <= j < |r| && r[i] == a && r[j] == b ==> i < j
  {
    var r := PreBuildCallbacks(methods).value;
    assert a in multiset(r) && b in multiset(r) by {
      assert a in Select(methods) && b in Select(methods);
    }
    Ordering.SortedBefore(r, CallbackOrder, a, b);
  }

  /** An attributed method whose order is below N runs before a method picked up only by its
      name `PreProcessBuildN...`. */
  lemma AttributeBeforeName(methods: seq<CallbackMethod>, a: CallbackMethod, b: CallbackMethod, n: nat, tail: string)
    requires PreBuildCallbacks(methods).Ok? && a in methods && b in methods
    requires a.attributeOrder.Some? && b.attributeOrder.None?
    requires b.name == Prefix + DecimalString(n) + tail
    requires n <= Int32Max && (tail != [] ==> !IsDigit(tail[0])) && a.attributeOrder.value < n
    ensures var r := PreBuildCallbacks(methods).value;
      && a in r && b in r
      && forall i, j :: 0 <= i < |r| && 0 <= j < |r| && r[i] == a && r[j] == b ==> i < j
  {
    assert Selected(b) && CallbackOrder(b) == n by {
      assert b.name[..|Prefix|] == Prefix;
      PositiveNameOrder(n, tail);
    }
    EarlierOrderRunsFirst(methods, a, b);
  }
}
