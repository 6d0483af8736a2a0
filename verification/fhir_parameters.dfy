/** A read-only accessor over an HL7 FHIR R4 Parameters resource: a list of named
    entries, each holding a boolean, string, coding or nested part-list value.
    Lookups filter the list by name only and then read one value slot. */
module FhirParameters {
  import opened Wrappers
  import opened Errors

  /** A coding as the server sends it: a key bag in which every key may be missing. */
  datatype Coding = Coding(system: Option<string>, code: Option<string>, display: Option<string>)

  /** One element of a `parameter` (or `part`) array. The source reads it with
      `dict.get`, so every key is optional and nothing forces exactly one value
      slot to be present. */
  datatype Entry = Entry(
    name: Option<string>,
    valueBoolean: Option<bool>,
    valueString: Option<string>,
    valueCoding: Option<Coding>,
    part: Option<seq<Entry>>)

  /** The accessor. `list` is `None` when it was built from a missing array
      (an absent `parameter` member, or a `match` entry without a `part`). */
  datatype Parameters = Parameters(list: Option<seq<Entry>>)

  // The value-key table: one selector per supported value kind.

  function BooleanSlot(e: Entry): Option<bool> { e.valueBoolean }

  function StringSlot(e: Entry): Option<string> { e.valueString }

  function CodingSlot(e: Entry): Option<Coding> { e.valueCoding }

  function PartSlot(e: Entry): Option<seq<Entry>> { e.part }

  predicate HasName(e: Entry, name: string) {
    e.name == Some(name)
  }

  function Names(es: seq<Entry>): seq<Option<string>> {
    seq(|es|, i requires 0 <= i < |es| => es[i].name)
  }

  /** How many entries carry `name`: the reference count for every plural getter. */
  function NameCount(es: seq<Entry>, name: string): nat {
    multiset(Names(es))[Some(name)]
  }

  /** `i` is the position of the first entry named `name`. */
  ghost predicate FirstNamedAt(es: seq<Entry>, name: string, i: int) {
    && 0 <= i < |es|
    && HasName(es[i], name)
    && forall j :: 0 <= j < i ==> !HasName(es[j], name)
  }

  /** The accessor has a list and no entry of it is named `name`. */
  ghost predicate Lacks(p: Parameters, name: string) {
    && p.list.Some?
    && forall i :: 0 <= i < |p.list.value| ==> !HasName(p.list.value[i], name)
  }

  /** The first entry named `name` holds `v` in the slot `slot` reads. */
  ghost predicate FirstIs<T>(p: Parameters, name: string, slot: Entry -> Option<T>, v: Option<T>) {
    && p.list.Some?
    && exists i :: FirstNamedAt(p.list.value, name, i) && slot(p.list.value[i]) == v
  }

  /** The private name filter: one element per entry whose name equals `name`, in
      list order, holding whatever that entry has in the requested slot. */
  function ValuesForName<T>(es: seq<Entry>, name: string, slot: Entry -> Option<T>): (r: seq<Option<T>>)
    ensures |r| <= |es|
  {
    if es == [] then []
    else if HasName(es[0], name) then [slot(es[0])] + ValuesForName(es[1..], name, slot)
    else ValuesForName(es[1..], name, slot)
  }

  /** Filtering commutes with concatenation: the relative order of the entries is kept. */
  lemma {:induction false} ValuesForNameAppend<T>(a: seq<Entry>, b: seq<Entry>, name: string, slot: Entry -> Option<T>)
    ensures ValuesForName(a + b, name, slot) == ValuesForName(a, name, slot) + ValuesForName(b, name, slot)
  {
    if a == [] {
      assert a + b == b;
    } else {
      assert (a + b)[1..] == a[1..] + b;
      ValuesForNameAppend(a[1..], b, name, slot);
    }
  }

  /** One element per same-named entry, whatever value kind is asked for. */
  lemma {:induction false} ValuesForNameCount<T>(es: seq<Entry>, name: string, slot: Entry -> Option<T>)
    ensures |ValuesForName(es, name, slot)| == NameCount(es, name)
  {
    if es != [] {
      assert Names(es) == [es[0].name] + Names(es[1..]);
      ValuesForNameCount(es[1..], name, slot);
    }
  }

  /** `v` is what some entry named `name` holds in the slot `slot` reads. */
  ghost predicate FromNamed<T>(es: seq<Entry>, name: string, slot: Entry -> Option<T>, v: Option<T>) {
    exists i :: 0 <= i < |es| && HasName(es[i], name) && slot(es[i]) == v
  }

  /** Every element of the filter comes from a same-named entry. */
  lemma {:induction false} ValuesForNameOrigin<T>(es: seq<Entry>, name: string, slot: Entry -> Option<T>)
    ensures forall k :: 0 <= k < |ValuesForName(es, name, slot)| ==>
      FromNamed(es, name, slot, ValuesForName(es, name, slot)[k])
  {
    if es != [] {
      var vs := ValuesForName(es, name, slot);
      var rest := ValuesForName(es[1..], name, slot);
      ValuesForNameOrigin(es[1..], name, slot);
      forall k | 0 <= k < |vs|
        ensures FromNamed(es, name, slot, vs[k])
      {
        if HasName(es[0], name) && k == 0 {
          assert slot(es[0]) == vs[k];
        } else {
          var j := if HasName(es[0], name) then k - 1 else k;
          assert vs[k] == rest[j];
          assert FromNamed(es[1..], name, slot, rest[j]);
          var i :| 0 <= i < |es[1..]| && HasName(es[1..][i], name) && slot(es[1..][i]) == rest[j];
          assert es[1..][i] == es[i + 1];
        }
      }
    }
  }

  /** Every same-named entry contributes its slot to the filter. */
  lemma {:induction false} ValuesForNameComplete<T>(es: seq<Entry>, name: string, slot: Entry -> Option<T>, i: int)
    requires 0 <= i < |es| && HasName(es[i], name)
    ensures slot(es[i]) in ValuesForName(es, name, slot)
  {
    if i > 0 {
      assert es[1..][i - 1] == es[i];
      ValuesForNameComplete(es[1..], name, slot, i - 1);
    }
  }

  /** The filter is empty exactly when no entry carries the name. */
  lemma {:induction false} ValuesForNameEmpty<T>(es: seq<Entry>, name: string, slot: Entry -> Option<T>)
    ensures ValuesForName(es, name, slot) == [] <==> forall i :: 0 <= i < |es| ==> !HasName(es[i], name)
  {
    if es != [] {
      ValuesForNameEmpty(es[1..], name, slot);
      if !HasName(es[0], name) && ValuesForName(es[1..], name, slot) != [] {
        var i :| 0 <= i < |es[1..]| && HasName(es[1..][i], name);
        assert es[i + 1] == es[1..][i];
      }
    }
  }

  /** The head of the filter is the slot of the first same-named entry. */
  lemma {:induction false} ValuesForNameHead<T>(es: seq<Entry>, name: string, slot: Entry -> Option<T>)
    ensures forall i :: FirstNamedAt(es, name, i) ==>
      ValuesForName(es, name, slot) != [] && ValuesForName(es, name, slot)[0] == slot(es[i])
    ensures ValuesForName(es, name, slot) != [] ==>
      exists i :: FirstNamedAt(es, name, i) && ValuesForName(es, name, slot)[0] == slot(es[i])
  {
    if es != [] {
      ValuesForNameHead(es[1..], name, slot);
      if !HasName(es[0], name) {
        forall i | FirstNamedAt(es, name, i)
          ensures ValuesForName(es, name, slot) != [] && ValuesForName(es, name, slot)[0] == slot(es[i])
        {
          assert FirstNamedAt(es[1..], name, i - 1);
        }
        if ValuesForName(es, name, slot) != [] {
          var i :| FirstNamedAt(es[1..], name, i) && ValuesForName(es[1..], name, slot)[0] == slot(es[1..][i]);
          assert FirstNamedAt(es, name, i + 1);
        }
      } else {
        assert FirstNamedAt(es, name, 0);
      }
    }
  }

  /** The generic plural getter: lazy in the source, but its list is taken eagerly,
      so an accessor over `None` fails as soon as it is asked. */
  function Values<T>(p: Parameters, name: string, slot: Entry -> Option<T>): (r: Result<seq<Option<T>>, Error>)
    ensures r.Failure? <==> p.list.None?
    ensures r.Failure? ==> r.error == NotIterable
    ensures r.Success? ==> |r.value| == NameCount(p.list.value, name)
  {
    match p.list
    case None => Failure(NotIterable)
    case Some(es) =>
      ValuesForNameCount(es, name, slot);
      Success(ValuesForName(es, name, slot))
  }

  /** The generic singular getter: the first element of the plural one, or
      `NotFound` when no entry has the name. */
  function Value<T>(p: Parameters, name: string, slot: Entry -> Option<T>): (r: Result<Option<T>, Error>)
    ensures p.list.None? ==> r == Failure(NotIterable)
    ensures r == Failure(NotFound(name)) <==> Lacks(p, name)
    ensures r.Success? <==> p.list.Some? && exists i :: FirstNamedAt(p.list.value, name, i)
    ensures r.Success? ==> FirstIs(p, name, slot, r.value)
  {
    match p.list
    case None => Failure(NotIterable)
    case Some(es) =>
      ValuesForNameEmpty(es, name, slot);
      ValuesForNameHead(es, name, slot);
      var vs := ValuesForName(es, name, slot);
      if vs == [] then Failure(NotFound(name)) else Success(vs[0])
  }

  function GetBooleans(p: Parameters, name: string): Result<seq<Option<bool>>, Error> {
    Values(p, name, BooleanSlot)
  }

  function GetBoolean(p: Parameters, name: string): Result<Option<bool>, Error> {
    Value(p, name, BooleanSlot)
  }

  function GetStrings(p: Parameters, name: string): Result<seq<Option<string>>, Error> {
    Values(p, name, StringSlot)
  }

  function GetString(p: Parameters, name: string): Result<Option<string>, Error> {
    Value(p, name, StringSlot)
  }

  function GetCodings(p: Parameters, name: string): Result<seq<Option<Coding>>, Error> {
    Values(p, name, CodingSlot)
  }

  function GetCoding(p: Parameters, name: string): Result<Option<Coding>, Error> {
    Value(p, name, CodingSlot)
  }

  function Wrap(lists: seq<Option<seq<Entry>>>): (ps: seq<Parameters>)
    ensures |ps| == |lists| && forall k :: 0 <= k < |lists| ==> ps[k].list == lists[k]
  {
    seq(|lists|, k requires 0 <= k < |lists| => Parameters(lists[k]))
  }

  /** Every same-named entry's `part` list, each wrapped in a new accessor. */
  function GetParts(p: Parameters, name: string): (r: Result<seq<Parameters>, Error>)
    ensures r.Failure? <==> p.list.None?
    ensures r.Failure? ==> r.error == NotIterable
    ensures r.Success? ==> |r.value| == NameCount(p.list.value, name)
    ensures r.Success? ==> forall k :: 0 <= k < |r.value| ==>
      FromNamed(p.list.value, name, PartSlot, r.value[k].list)
  {
    var parts :- Values(p, name, PartSlot);
    ValuesForNameOrigin(p.list.value, name, PartSlot);
    Success(Wrap(parts))
  }

  /** The first same-named entry's `part` list as a new accessor. */
  function GetPart(p: Parameters, name: string): (r: Result<Parameters, Error>)
    ensures p.list.None? ==> r == Failure(NotIterable)
    ensures r == Failure(NotFound(name)) <==> Lacks(p, name)
    ensures r.Success? <==> p.list.Some? && exists i :: FirstNamedAt(p.list.value, name, i)
    ensures r.Success? ==> FirstIs(p, name, PartSlot, r.value.list)
  {
    var ps :- GetParts(p, name);
    ValuesForNameEmpty(p.list.value, name, PartSlot);
    ValuesForNameHead(p.list.value, name, PartSlot);
    if ps == [] then Failure(NotFound(name)) else Success(ps[0])
  }

  /** The accessors yielded for one stretch of the list do not depend on the
      entries around it: siblings never leak into a part's scope or order. */
  lemma GetPartsAppend(a: seq<Entry>, b: seq<Entry>, name: string)
    ensures GetParts(Parameters(Some(a + b)), name).value ==
      GetParts(Parameters(Some(a)), name).value + GetParts(Parameters(Some(b)), name).value
  {
    ValuesForNameAppend(a, b, name, PartSlot);
  }
}
