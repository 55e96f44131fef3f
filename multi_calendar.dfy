/** The multi-calendar layer (MultiCalendar and MultiCalendar_Iran): an
    ordered set of one-calendar members sharing one day index, one of them
    selected; moves go to the selected member and are then pushed to all. */
module MultiCalendars {
  import opened CalendarRules
  import opened DayCount
  import opened SimpleCalendars

  // ------------------------------------------------------- class lookup

  /** PHP's truth test on a string: "" and "0" are false. */
  predicate Truthy(s: string)
  {
    s != "" && s != "0"
  }

  function LowerChar(c: char): char
  {
    if 'A' <= c <= 'Z' then (c as int + 32) as char else c
  }

  function UpperChar(c: char): char
  {
    if 'a' <= c <= 'z' then (c as int - 32) as char else c
  }

  /** strtolower on ASCII letters. */
  function Lower(s: string): (r: string)
  {
    seq(|s|, k requires 0 <= k < |s| => LowerChar(s[k]))
  }

  /** class_exists and `new` on ucfirst(strtolower(name)) . "Calendar": the
      rule table of the base class of a calendar name, None for a name that
      has none. PHP matches class names without regard to case. */
  function BaseSystem(name: string): (r: Option<System>)
    ensures r.Some? ==> Truthy(name)
    ensures r.Some? ==> r.value == Gregorian || r.value == Persian || r.value == Islamic
  {
    var k := Lower(name);
    if k == "gregorian" then Some(Gregorian)
    else if k == "persian" then Some(Persian)
    else if k == "islamic" then Some(Islamic)
    else None
  }

  /** class_exists and `new` on the base class name . "_" . variation: the
      rule table of a variant class, None where the base has no such
      variant. */
  function VariantSystem(base: System, variation: string): (r: Option<System>)
  {
    var v := Lower(variation);
    match base
    case Persian =>
      if v == "33" then Some(Persian33)
      else if v == "2820" then Some(Persian2820)
      else if v == "iran" then Some(PersianIran)
      else None
    case Islamic =>
      if v == "iran" then Some(IslamicIran) else None
    case _ => None
  }

  /** The class add_calendar instantiates for `calendar` and the requested
      variation (Some("") asks for the preferred one, None for none), with
      the variation it records: the variant class when it exists, else the
      base class with no variation; None when not even the base exists. */
  function Resolve(calendar: string, variation: Option<string>, preferred: string)
    : (r: Option<(System, Option<string>)>)
    ensures r.Some? <==> BaseSystem(calendar).Some?
    ensures r.Some? && r.value.1.Some? ==> Truthy(r.value.1.value)
    ensures r.Some? && r.value.1.None? ==> Some(r.value.0) == BaseSystem(calendar)
    ensures r.Some? && r.value.1.Some? ==>
              VariantSystem(BaseSystem(calendar).value, r.value.1.value) == Some(r.value.0)
  {
    var v := if variation == Some("") then Some(preferred) else variation;
    match BaseSystem(calendar)
    case None => None
    case Some(base) =>
      if v.Some? && Truthy(v.value) && VariantSystem(base, v.value).Some? then
        Some((VariantSystem(base, v.value).value, v))
      else
        Some((base, None))
  }

  /** Only the letters of a calendar name and of a variation, not their
      case, decide the class add_calendar instantiates. */
  lemma ResolveIgnoresCase(a: string, b: string, va: string, vb: string, preferred: string)
    requires Lower(a) == Lower(b) && Lower(va) == Lower(vb)
    requires Truthy(va) <==> Truthy(vb)
    ensures var ra := Resolve(a, Some(va), preferred);
            var rb := Resolve(b, Some(vb), preferred);
            ra.Some? == rb.Some? && (ra.Some? ==> ra.value.0 == rb.value.0)
  {
  }

  /** The lookups of MultiCalendar_Iran: the Persian and Islamic calendars
      take their Iran variants, the Gregorian one, having none, falls back to
      the base class; an unknown calendar fails. */
  lemma IranResolution()
    ensures Resolve("Persian", Some(""), "Iran") == Some((PersianIran, Some("Iran")))
    ensures Resolve("Islamic", Some(""), "Iran") == Some((IslamicIran, Some("Iran")))
    ensures Resolve("Gregorian", Some(""), "Iran") == Some((Gregorian, None))
    ensures Resolve("persian", Some("2820"), "Iran") == Some((Persian2820, Some("2820")))
    ensures Resolve("Gregorian", None, "Iran") == Some((Gregorian, None))
    ensures Resolve("Julian", Some(""), "Iran") == None
  {
    assert Lower("Persian") == "persian" && Lower("persian") == "persian";
    assert Lower("Islamic") == "islamic";
    LowerNames();
    assert Lower("Iran") == "iran" && Lower("2820") == "2820";
  }

  // ------------------------------------------------------- registration

  /** The calendar list of a multi-calendar: the names (keys of `calendars`
      and `cals`, in registration order), the variation recorded for each,
      the rule table of each member, and the formal names. */
  datatype Registry = Registry(names: seq<string>, variations: seq<Option<string>>,
                               systems: seq<System>, formals: seq<string>)

  predicate Distinct(s: seq<string>)
  {
    forall a, b :: 0 <= a < b < |s| ==> s[a] != s[b]
  }

  /** The lists run in parallel, each name once, every formal name listed. */
  predicate Coherent(reg: Registry)
  {
    && |reg.names| == |reg.variations| == |reg.systems|
    && Distinct(reg.names)
    && (forall f :: f in reg.formals ==> f in reg.names)
  }

  /** The position of a key. */
  function IndexOf(s: seq<string>, x: string): (k: nat)
    requires x in s
    ensures k < |s| && s[k] == x && x !in s[..k]
  {
    if s[0] == x then 0 else assert x in s[1..]; 1 + IndexOf(s[1..], x)
  }

  /** add_calendar's array_merge of (calendar => variation) and (calendar =>
      instance), and its append to `formals`: a name already present keeps
      its place and has its entries replaced, a new one goes last. */
  function Register(reg: Registry, calendar: string, sys: System, variation: Option<string>,
                    formal: bool): (r: Registry)
    requires Coherent(reg)
    ensures Coherent(r)
  {
    var fs := reg.formals + (if formal then [calendar] else []);
    if calendar in reg.names then
      var k := IndexOf(reg.names, calendar);
      Registry(reg.names, reg.variations[k := variation], reg.systems[k := sys], fs)
    else
      Registry(reg.names + [calendar], reg.variations + [variation], reg.systems + [sys], fs)
  }

  /** The formal flag only decides the append to `formals`. */
  lemma RegisterFormal(reg: Registry, calendar: string, sys: System, variation: Option<string>,
                       formal: bool)
    requires Coherent(reg)
    ensures var r := Register(reg, calendar, sys, variation, false);
            Register(reg, calendar, sys, variation, formal)
              == r.(formals := r.formals + (if formal then [calendar] else []))
  {
  }

  /** Registering puts the calendar's table and variation under its name,
      leaves every other name with its entries and its position, appends a
      new name at the end, and appends the name to the formals when asked. */
  lemma RegisterUpserts(reg: Registry, calendar: string, sys: System, variation: Option<string>,
                        formal: bool)
    requires Coherent(reg)
    ensures var r := Register(reg, calendar, sys, variation, formal);
            && calendar in r.names
            && r.systems[IndexOf(r.names, calendar)] == sys
            && r.variations[IndexOf(r.names, calendar)] == variation
            && r.names == (if calendar in reg.names then reg.names else reg.names + [calendar])
            && (forall k :: 0 <= k < |reg.names| && reg.names[k] != calendar ==>
                  r.systems[k] == reg.systems[k] && r.variations[k] == reg.variations[k])
            && r.formals == reg.formals + (if formal then [calendar] else [])
  {
    if calendar !in reg.names {
      IndexOfLast(reg.names, calendar);
    }
  }

  /** A name appended to a list without it is found at the end. */
  lemma IndexOfLast(s: seq<string>, x: string)
    requires x !in s
    ensures IndexOf(s + [x], x) == |s|
  {
    assert forall j :: 0 <= j < |s| ==> (s + [x])[j] == s[j];
  }

  /** Extending a list leaves each of its names where it was. */
  lemma {:induction false} IndexOfPrefix(s: seq<string>, t: seq<string>, x: string)
    requires x in s
    ensures IndexOf(s + t, x) == IndexOf(s, x)
    decreases |s|
  {
    if s[0] != x {
      assert (s + t)[1..] == s[1..] + t;
      assert x in s[1..];
      IndexOfPrefix(s[1..], t, x);
    }
  }

  /** The keys after array_merge adds `key`: unchanged when present, else
      extended by it. */
  function MergedKeys(keys: seq<string>, key: string): (r: seq<string>)
    ensures key in r && keys <= r
  {
    if key in keys then keys else keys + [key]
  }

  /** The values after array_merge puts `x` under `key`: a present key has
      its value replaced in place, a new one goes last. */
  function MergedAt<T>(keys: seq<string>, xs: seq<T>, key: string, x: T): (r: seq<T>)
    requires |xs| == |keys|
    ensures |r| == |MergedKeys(keys, key)|
  {
    if key in keys then xs[IndexOf(keys, key) := x] else xs + [x]
  }

  /** After the merge, `key` holds `x` and every other key keeps its value. */
  lemma MergedLookup<T>(keys: seq<string>, xs: seq<T>, key: string, x: T, sel: string)
    requires |xs| == |keys| && (sel in keys || sel == key)
    ensures var r := MergedAt(keys, xs, key, x);
            && sel in MergedKeys(keys, key)
            && r[IndexOf(MergedKeys(keys, key), sel)] == if sel == key then x else xs[IndexOf(keys, sel)]
  {
    if key !in keys {
      if sel == key {
        IndexOfLast(keys, key);
      } else {
        IndexOfPrefix(keys, [key], sel);
      }
    }
  }

  /** The entry of `xs` under the selected key of `keys`, or under the
      first key when nothing is selected. */
  function Chosen<T>(keys: seq<string>, xs: seq<T>, id: Option<string>): (x: T)
    requires keys != [] && |xs| == |keys| && (id.Some? ==> id.value in keys)
    ensures x in xs
  {
    xs[IndexOf(keys, if id.Some? then id.value else keys[0])]
  }

  /** Merging `x` under `key` changes the chosen entry only when `key` is
      the chosen key, or when there was no key before. */
  lemma MergedChosen<T>(keys: seq<string>, xs: seq<T>, key: string, x: T, id: Option<string>)
    requires |xs| == |keys| && (id.Some? ==> id.value in keys)
    ensures (id.Some? ==> id.value in MergedKeys(keys, key)) && |MergedAt(keys, xs, key, x)| == |MergedKeys(keys, key)|
    ensures Chosen(MergedKeys(keys, key), MergedAt(keys, xs, key, x), id) ==
              if keys != [] && (if id.Some? then id.value else keys[0]) != key then Chosen(keys, xs, id) else x
  {
    var sel := if id.Some? then id.value else if keys == [] then key else keys[0];
    MergedLookup(keys, xs, key, x, sel);
    if id.None? {
      MergedFirst(keys, xs, key, x);
      assert IndexOf(MergedKeys(keys, key), MergedKeys(keys, key)[0]) == 0;
      if keys != [] {
        assert IndexOf(keys, keys[0]) == 0;
      }
    }
  }

  /** The first value after the merge: `x` when the keys were empty or
      began with `key`, else the old first value. */
  lemma MergedFirst<T>(keys: seq<string>, xs: seq<T>, key: string, x: T)
    requires |xs| == |keys|
    ensures MergedAt(keys, xs, key, x)[0] == if keys == [] || keys[0] == key then x else xs[0]
  {
    if keys != [] && key in keys && keys[0] != key {
      assert IndexOf(keys, key) != 0;
    }
  }

  function EmptyRegistry(): (r: Registry)
    ensures Coherent(r)
  {
    Registry([], [], [], [])
  }

  /** The constructor's loop: add_calendar on each (name, variation) of the
      list in turn, formal when the name is among `formals`; a name whose
      class does not exist is skipped. */
  function RegisterAll(entries: seq<(string, Option<string>)>, formals: seq<string>,
                       preferred: string): (r: Registry)
    ensures Coherent(r)
  {
    if |entries| == 0 then EmptyRegistry()
    else
      var prev := RegisterAll(entries[..|entries| - 1], formals, preferred);
      var e := entries[|entries| - 1];
      match Resolve(e.0, e.1, preferred)
      case None => prev
      case Some(found) => Register(prev, e.0, found.0, found.1, e.0 in formals)
  }

  /** The list and the variation MultiCalendar_Iran starts from: Persian,
      Islamic and Gregorian, the first two formal, preferring "Iran". */
  const IranCalendars: seq<(string, Option<string>)> :=
    [("Persian", Some("")), ("Islamic", Some("")), ("Gregorian", Some(""))]
  const IranFormals: seq<string> := ["Persian", "Islamic"]

  /** The lower-case forms of the names the Iran defaults use. */
  lemma LowerNames()
    ensures Lower("Persian") == "persian" && Lower("Islamic") == "islamic"
    ensures Lower("Gregorian") == "gregorian" && Lower("Iran") == "iran"
  {
  }

  /** One more entry registers on top of the registry of the ones before. */
  lemma RegisterAllStep(entries: seq<(string, Option<string>)>, formals: seq<string>,
                        preferred: string, prev: Registry, sys: System, recorded: Option<string>)
    requires |entries| > 0 && RegisterAll(entries[..|entries| - 1], formals, preferred) == prev
    requires Resolve(entries[|entries| - 1].0, entries[|entries| - 1].1, preferred) == Some((sys, recorded))
    ensures RegisterAll(entries, formals, preferred)
            == Register(prev, entries[|entries| - 1].0, sys, recorded, entries[|entries| - 1].0 in formals)
  {
  }

  lemma IranFirstEntry()
    ensures RegisterAll(IranCalendars[..1], IranFormals, "Iran")
            == Registry(["Persian"], [Some("Iran")], [PersianIran], ["Persian"])
  {
    IranResolution();
    assert IranCalendars[..1][..0] == [];
    RegisterAllStep(IranCalendars[..1], IranFormals, "Iran", EmptyRegistry(), PersianIran, Some("Iran"));
  }

  lemma IranSecondEntry()
    ensures RegisterAll(IranCalendars[..2], IranFormals, "Iran")
            == Registry(["Persian", "Islamic"], [Some("Iran"), Some("Iran")],
                        [PersianIran, IslamicIran], ["Persian", "Islamic"])
  {
    IranFirstEntry();
    IranResolution();
    assert IranCalendars[..2][..1] == IranCalendars[..1];
    RegisterAllStep(IranCalendars[..2], IranFormals, "Iran",
                    Registry(["Persian"], [Some("Iran")], [PersianIran], ["Persian"]),
                    IslamicIran, Some("Iran"));
    assert "Islamic" !in ["Persian"];
  }

  /** MultiCalendar_Iran holds the Iran variants of the Persian and Islamic
      calendars, both formal, and the plain Gregorian one, in that order. */
  lemma IranRegistry()
    ensures RegisterAll(IranCalendars, IranFormals, "Iran")
            == Registry(["Persian", "Islamic", "Gregorian"],
                        [Some("Iran"), Some("Iran"), None],
                        [PersianIran, IslamicIran, Gregorian],
                        ["Persian", "Islamic"])
  {
    IranSecondEntry();
    assert IranCalendars[..2] == IranCalendars[..|IranCalendars| - 1];
    assert IranCalendars[2] == ("Gregorian", Some(""));
    assert Resolve("Gregorian", Some(""), "Iran") == Some((Gregorian, None)) by {
      IranResolution();
    }
    RegisterAllStep(IranCalendars, IranFormals, "Iran",
                    Registry(["Persian", "Islamic"], [Some("Iran"), Some("Iran")],
                             [PersianIran, IslamicIran], ["Persian", "Islamic"]),
                    Gregorian, None);
    assert "Gregorian" !in ["Persian", "Islamic"];
  }

  // --------------------------------------------------------- selection

  /** A list without one key, the others in their order. */
  function Without(s: seq<string>, x: string): (r: seq<string>)
    ensures forall y :: y in r <==> y in s && y != x
  {
    if |s| == 0 then []
    else if s[0] == x then Without(s[1..], x)
    else [s[0]] + Without(s[1..], x)
  }

  /** select's `scals`: the selected key first, then the others in
      registration order. */
  function SelectedFirst(names: seq<string>, id: string): seq<string>
  {
    [id] + Without(names, id)
  }

  /** `scals` holds exactly the keys. */
  lemma SelectedFirstCovers(names: seq<string>, id: string)
    requires id in names
    ensures forall x :: x in SelectedFirst(names, id) <==> x in names
  {
  }

  /** The position of each entry of `order` among the keys. */
  function Positions(names: seq<string>, order: seq<string>): (r: seq<nat>)
    requires forall x :: x in order ==> x in names
    ensures |r| == |order|
    ensures forall t :: 0 <= t < |order| ==> r[t] == IndexOf(names, order[t]) && r[t] < |names|
  {
    seq(|order|, t requires 0 <= t < |order| => IndexOf(names, order[t]))
  }

  /** When a list holds exactly the distinct keys, every key position is
      reached by looking up some entry of the list. */
  lemma PositionInOrder(names: seq<string>, order: seq<string>, k: nat) returns (t: nat)
    requires Distinct(names) && k < |names|
    requires forall x :: x in order <==> x in names
    ensures t < |order| && IndexOf(names, order[t]) == k
  {
    assert names[k] in order;
    t :| t < |order| && order[t] == names[k];
    var p := IndexOf(names, order[t]);
    assert names[p] == names[k];
  }

  /** With distinct keys, `scals` is the key list with the selected key
      moved to the front: the same keys, each once. */
  lemma {:induction false} SelectedFirstIsPermutation(names: seq<string>, id: string)
    requires Distinct(names) && id in names
    ensures var k := IndexOf(names, id);
            SelectedFirst(names, id) == [id] + names[..k] + names[k + 1..]
    ensures multiset(SelectedFirst(names, id)) == multiset(names)
  {
    var k := IndexOf(names, id);
    WithoutOnce(names, id, k);
    var before, after := names[..k], names[k + 1..];
    assert names == before + [id] + after;
    assert SelectedFirst(names, id) == [id] + before + after;
    calc {
      multiset(SelectedFirst(names, id));
      multiset([id]) + multiset(before) + multiset(after);
      multiset(before + [id] + after);
    }
  }

  lemma {:induction false} WithoutOnce(s: seq<string>, x: string, k: nat)
    requires Distinct(s) && k < |s| && s[k] == x
    ensures Without(s, x) == s[..k] + s[k + 1..]
    decreases |s|
  {
    if k == 0 {
      WithoutAbsent(s[1..], x);
      assert s[1..] == s[..0] + s[1..];
    } else {
      WithoutOnce(s[1..], x, k - 1);
      assert s[1..][..k - 1] == s[1..k];
      assert s[1..][k..] == s[k + 1..];
      assert [s[0]] + s[1..k] == s[..k];
    }
  }

  lemma {:induction false} WithoutAbsent(s: seq<string>, x: string)
    requires x !in s
    ensures Without(s, x) == s
    decreases |s|
  {
    if |s| > 0 {
      WithoutAbsent(s[1..], x);
    }
  }

  // ------------------------------------------------------------ members

  /** array_merge of numerically keyed lists: their concatenation in order. */
  function Concat(lists: seq<seq<string>>): (r: seq<string>)
  {
    if |lists| == 0 then [] else Concat(lists[..|lists| - 1]) + lists[|lists| - 1]
  }

  /** A text is in the merged list exactly when one of the lists holds it. */
  lemma {:induction false} ConcatMembers(lists: seq<seq<string>>, a: string)
    ensures a in Concat(lists) <==> exists j :: 0 <= j < |lists| && a in lists[j]
  {
    if |lists| > 0 {
      var init := lists[..|lists| - 1];
      ConcatMembers(init, a);
      if a in Concat(init) {
        var j :| 0 <= j < |init| && a in init[j];
        assert lists[j] == init[j];
      }
    }
  }

  /** Merging one more list appends it. */
  lemma ConcatSnoc(lists: seq<seq<string>>, k: nat)
    requires k < |lists|
    ensures Concat(lists[..k + 1]) == Concat(lists[..k]) + lists[k]
  {
    assert lists[..k + 1][..k] == lists[..k];
  }

  /** A scan that finds no true flag up to `j` and a false one at `j` finds
      none up to `j + 1`. */
  lemma NoneTrueSnoc(flags: seq<bool>, j: nat)
    requires j < |flags| && true !in flags[..j] && !flags[j]
    ensures true !in flags[..j + 1]
  {
    assert flags[..j + 1] == flags[..j] + [flags[j]];
  }

  /** Each member's annotations at day index `k`, in list order. */
  ghost function MemberAnnotations(cals: seq<SimpleCalendar>, k: int): (r: seq<seq<string>>)
    ensures |r| == |cals|
  {
    seq(|cals|, j requires 0 <= j < |cals| => AnnotationsAt(cals[j].table, k))
  }

  /** For each formal name in turn, whether the calendar under it (the
      calendars listed in the order of the names) has a holiday at day
      index `k`. */
  ghost function HolidayFlags(cals: seq<SimpleCalendar>, names: seq<string>, formals: seq<string>,
                              k: int): (r: seq<bool>)
    requires |cals| == |names| && forall f :: f in formals ==> f in names
    ensures |r| == |formals|
  {
    seq(|formals|, t requires 0 <= t < |formals| => HolidayAt(cals[IndexOf(names, formals[t])].table, k))
  }

  /** The subclasses the model knows: MultiCalendar itself and
      MultiCalendar_Iran, which differ in their default lists and in the
      variation taken from the class name. */
  datatype Kind = Plain | Iran

  function DefaultCalendars(kind: Kind): seq<(string, Option<string>)>
  {
    match kind
    case Plain => []
    case Iran => IranCalendars
  }

  function DefaultFormals(kind: Kind): seq<string>
  {
    match kind
    case Plain => []
    case Iran => IranFormals
  }

  /** The constructor's variation: a false one is replaced by the part of
      the class name after its underscore, where there is one. */
  function DefaultVariation(kind: Kind, variation: string): (r: string)
    ensures Truthy(variation) ==> r == variation
    ensures kind == Iran && !Truthy(variation) ==> r == "Iran"
    ensures kind == Plain ==> r == variation
  {
    if !Truthy(variation) && kind == Iran then "Iran" else variation
  }

  /** A member in a usable state: its date matches its index, its year
      length is cached, and its table is its class's. */
  ghost predicate Usable(c: SimpleCalendar)
    reads c
  {
    c.Valid() && c.Cached() && c.table == TableOf(c.table.sys)
  }

  /** `new $klass ()` as add_calendar sees it: a fresh member at its
      class's base index. */
  method NewMember(sys: System) returns (c: SimpleCalendar)
    ensures fresh(c) && Usable(c) && c.table.sys == sys && c.i == c.table.baseI
  {
    c := new SimpleCalendar(sys);
  }

  /** The rule table of each calendar of a list. */
  function SystemsOf(cs: seq<SimpleCalendar>): (r: seq<System>)
    ensures |r| == |cs|
    ensures forall k :: 0 <= k < |cs| ==> r[k] == cs[k].table.sys
  {
    seq(|cs|, k requires 0 <= k < |cs| => cs[k].table.sys)
  }

  /** The member invariant of a multi-calendar, on the values of its
      fields: the lists agree, the names are true strings, and the members
      are distinct usable calendars of `repr`. */
  ghost predicate Owned(names: seq<string>, variations: seq<Option<string>>,
                        cals: seq<SimpleCalendar>, formals: seq<string>,
                        repr: set<SimpleCalendar>)
    reads repr
  {
    && Coherent(Registry(names, variations, SystemsOf(cals), formals))
    && (forall k :: 0 <= k < |names| ==> Truthy(names[k]))
    && (forall k :: 0 <= k < |cals| ==> cals[k] in repr)
    && (forall a, b :: 0 <= a < b < |cals| ==> cals[a] != cals[b])
    && (forall k {:trigger Usable(cals[k])} :: 0 <= k < |cals| ==> Usable(cals[k]))
  }

  /** A new name with a new usable member keeps the invariant. */
  lemma OwnedAppend(names: seq<string>, variations: seq<Option<string>>,
                    cals: seq<SimpleCalendar>, formals: seq<string>,
                    repr: set<SimpleCalendar>, calendar: string, recorded: Option<string>,
                    inst: SimpleCalendar)
    requires Owned(names, variations, cals, formals, repr)
    requires Truthy(calendar) && calendar !in names && Usable(inst) && inst !in repr
    ensures Owned(names + [calendar], variations + [recorded], cals + [inst], formals, repr + {inst})
    ensures SystemsOf(cals + [inst]) == SystemsOf(cals) + [inst.table.sys]
  {
    SystemsSnoc(cals, inst);
    DistinctSnoc(names, calendar);
    MembersSnoc(cals, repr, inst);
  }

  /** A known name with a new usable member keeps the invariant. */
  lemma OwnedReplace(names: seq<string>, variations: seq<Option<string>>,
                     cals: seq<SimpleCalendar>, formals: seq<string>,
                     repr: set<SimpleCalendar>, k: nat, recorded: Option<string>,
                     inst: SimpleCalendar)
    requires Owned(names, variations, cals, formals, repr)
    requires k < |names| && Usable(inst) && inst !in repr
    ensures Owned(names, variations[k := recorded], cals[k := inst], formals, repr + {inst})
    ensures SystemsOf(cals[k := inst]) == SystemsOf(cals)[k := inst.table.sys]
  {
    SystemsUpdate(cals, k, inst);
    MembersUpdate(cals, repr, k, inst);
  }

  lemma SystemsSnoc(cals: seq<SimpleCalendar>, inst: SimpleCalendar)
    ensures SystemsOf(cals + [inst]) == SystemsOf(cals) + [inst.table.sys]
  {
  }

  lemma SystemsUpdate(cals: seq<SimpleCalendar>, k: nat, inst: SimpleCalendar)
    requires k < |cals|
    ensures SystemsOf(cals[k := inst]) == SystemsOf(cals)[k := inst.table.sys]
  {
  }

  lemma DistinctSnoc(s: seq<string>, x: string)
    requires Distinct(s) && x !in s
    ensures Distinct(s + [x])
  {
    var t := s + [x];
    forall a, b | 0 <= a < b < |t|
      ensures t[a] != t[b]
    {
      assert t[a] == s[a];
    }
  }

  /** Appending a fresh usable calendar keeps the members distinct, owned
      and usable. */
  lemma MembersSnoc(cals: seq<SimpleCalendar>, repr: set<SimpleCalendar>, inst: SimpleCalendar)
    requires forall k :: 0 <= k < |cals| ==> cals[k] in repr
    requires forall a, b :: 0 <= a < b < |cals| ==> cals[a] != cals[b]
    requires forall k {:trigger Usable(cals[k])} :: 0 <= k < |cals| ==> Usable(cals[k])
    requires Usable(inst) && inst !in repr
    ensures var cs := cals + [inst];
            && (forall k :: 0 <= k < |cs| ==> cs[k] in repr + {inst})
            && (forall a, b :: 0 <= a < b < |cs| ==> cs[a] != cs[b])
            && (forall k {:trigger Usable(cs[k])} :: 0 <= k < |cs| ==> Usable(cs[k]))
  {
    var cs := cals + [inst];
    forall k | 0 <= k < |cs|
      ensures cs[k] in repr + {inst} && Usable(cs[k])
    {
      if k < |cals| {
        assert cs[k] == cals[k] && Usable(cals[k]);
      }
    }
    forall a, b | 0 <= a < b < |cs|
      ensures cs[a] != cs[b]
    {
      assert cs[a] == cals[a] && cs[a] in repr;
    }
  }

  /** Putting a fresh usable calendar in one place keeps the members
      distinct, owned and usable. */
  lemma MembersUpdate(cals: seq<SimpleCalendar>, repr: set<SimpleCalendar>, k: nat,
                      inst: SimpleCalendar)
    requires k < |cals|
    requires forall j :: 0 <= j < |cals| ==> cals[j] in repr
    requires forall a, b :: 0 <= a < b < |cals| ==> cals[a] != cals[b]
    requires forall j {:trigger Usable(cals[j])} :: 0 <= j < |cals| ==> Usable(cals[j])
    requires Usable(inst) && inst !in repr
    ensures var cs := cals[k := inst];
            && (forall j :: 0 <= j < |cs| ==> cs[j] in repr + {inst})
            && (forall a, b :: 0 <= a < b < |cs| ==> cs[a] != cs[b])
            && (forall j {:trigger Usable(cs[j])} :: 0 <= j < |cs| ==> Usable(cs[j]))
  {
    var cs := cals[k := inst];
    forall j | 0 <= j < |cs|
      ensures cs[j] in repr + {inst} && Usable(cs[j])
    {
      if j != k {
        assert cs[j] == cals[j] && Usable(cals[j]);
      }
    }
    forall a, b | 0 <= a < b < |cs|
      ensures cs[a] != cs[b]
    {
      if a != k && b != k {
        assert cs[a] == cals[a] && cs[b] == cals[b];
      } else if a == k {
        assert cs[b] == cals[b] && cs[b] in repr;
      } else {
        assert cs[a] == cals[a] && cs[a] in repr;
      }
    }
  }

  /** Listing a known name as formal keeps the invariant. */
  lemma OwnedFormal(names: seq<string>, variations: seq<Option<string>>,
                    cals: seq<SimpleCalendar>, formals: seq<string>,
                    repr: set<SimpleCalendar>, calendar: string)
    requires Owned(names, variations, cals, formals, repr) && calendar in names
    ensures Owned(names, variations, cals, formals + [calendar], repr)
  {
  }

  class MultiCalendar {
    /** The preferred variation, used where a calendar asks for "". */
    var variation: string
    /** The keys of `calendars` and `cals`, in order. */
    var names: seq<string>
    /** The variation recorded for each name (None for PHP's false). */
    var variations: seq<Option<string>>
    /** The member calendars, one per name. */
    var cals: seq<SimpleCalendar>
    /** The names whose holidays count as holidays. */
    var formals: seq<string>
    /** The selected name, None before any is selected. */
    var id: Option<string>
    /** The names with the selected one first. */
    var scals: seq<string>
    /** The weekend days, None while unset (-1). */
    var weekend: Option<seq<int>>
    /** The shared day index and its weekday. */
    var i: int
    var w: int
    /** Indices pushed by `save`. */
    var iStack: seq<int>
    /** Every member calendar ever created. */
    ghost var Repr: set<SimpleCalendar>

    /** The rule table of each member. */
    function Systems(): (r: seq<System>)
      reads this`cals
      ensures |r| == |cals|
    {
      SystemsOf(cals)
    }

    function Reg(): Registry
      reads this`names, this`variations, this`cals, this`formals
    {
      Registry(names, variations, Systems(), formals)
    }

    /** The lists agree, and the members are distinct, well-formed
        calendars owned by this one. */
    ghost predicate Members()
      reads this`names, this`variations, this`cals, this`formals, this`Repr, Repr
    {
      Owned(names, variations, cals, formals, Repr)
    }

    /** select has run: the selected name is a key and heads `scals`; no
        name is selected only when there are none. */
    ghost predicate Selection()
      reads this`id, this`names, this`scals
    {
      match id
      case Some(sid) => sid in names && scals == SelectedFirst(names, sid)
      case None => names == [] && scals == []
    }

    /** synch has run: every member is at the shared index, whose weekday
        is `w`. */
    ghost predicate Synched()
      reads this`cals, this`i, this`w, cals
    {
      && (forall k :: 0 <= k < |cals| ==> cals[k].i == i)
      && w == WeekDay(i)
    }

    /** Every member object is still where its constructor put it: at the
        anchor index of its class. */
    ghost predicate AtAnchors()
      reads this`Repr, Repr
    {
      forall c :: c in Repr ==> c.i == c.table.baseI
    }

    ghost predicate Valid()
      reads this`names, this`variations, this`cals, this`formals, this`id, this`scals, this`i, this`w
      reads this`Repr, Repr
    {
      && Members() && Selection() && Synched()
      && (id.Some? ==> Usable(Selected()))
      && (id.None? ==> i == 0)
    }

    /** The member under a name. */
    function Member(name: string): (c: SimpleCalendar)
      requires name in names && |cals| == |names|
      reads this`names, this`cals
      ensures c in cals
    {
      cals[IndexOf(names, name)]
    }

    /** `c`, the selected member. */
    function Selected(): (c: SimpleCalendar)
      requires Selection() && id.Some? && |cals| == |names|
      reads this`id, this`names, this`scals, this`cals
      ensures c in cals
    {
      Member(id.value)
    }

    /** The member select() settles on: the selected one, or the first
        when nothing is selected. */
    function Pick(): (c: SimpleCalendar)
      requires names != [] && (id.Some? ==> id.value in names) && |cals| == |names|
      reads this`id, this`names, this`cals
      ensures c in cals
    {
      Chosen(names, cals, id)
    }

    /** The rule table of the member under a name. */
    function MemberTable(name: string): (t: Table)
      requires name in names && |cals| == |names|
      reads this`names, this`cals
      ensures t.sys == Systems()[IndexOf(names, name)]
    {
      Member(name).table
    }

    /** A member's table is the one of the class recorded for its name. */
    lemma MemberTableIsRecorded(name: string)
      requires Members() && name in names
      ensures MemberTable(name) == TableOf(Reg().systems[IndexOf(names, name)])
    {
      assert Usable(cals[IndexOf(names, name)]);
    }

    /** The key list multiplex walks: all keys in order when asked for the
        selected order, else `scals`. */
    function MultiplexOrder(selectedOrder: bool): seq<string>
      reads this`names, this`scals
    {
      if selectedOrder then names else scals
    }

    /** Either way multiplex visits every member exactly once. */
    lemma MultiplexVisitsAll(selectedOrder: bool)
      requires Members() && Selection()
      ensures multiset(MultiplexOrder(selectedOrder)) == multiset(names)
    {
      if !selectedOrder && id.Some? {
        SelectedFirstIsPermutation(names, id.value);
      }
    }

    // ----------------------------------------------------------- building

    /** MultiCalendar (and MultiCalendar_Iran): take the default lists where
        none are given, add each calendar without selecting, select the
        first, synch, take the weekend from the selected member, and synch
        once more through the Calendar constructor. */
    constructor (kind: Kind, requested: string, calendars: seq<(string, Option<string>)>,
                 formalNames: seq<string>)
      ensures Valid() && fresh(Repr) && iStack == []
      ensures var cs := if |calendars| == 0 then DefaultCalendars(kind) else calendars;
              var fs := if |formalNames| == 0 then DefaultFormals(kind) else formalNames;
              Reg() == RegisterAll(cs, fs, DefaultVariation(kind, requested))
      ensures variation == DefaultVariation(kind, requested)
      ensures names == [] ==> id == None && weekend == None && i == 0
      ensures names != [] ==> id == Some(names[0]) && weekend == Some(Weekend(Systems()[0]))
      ensures names != [] ==> i == TableOf(Systems()[0]).baseI
    {
      var cs := if |calendars| == 0 then DefaultCalendars(kind) else calendars;
      var fs := if |formalNames| == 0 then DefaultFormals(kind) else formalNames;
      variation := DefaultVariation(kind, requested);
      names, variations, cals, formals := [], [], [], [];
      id, scals, weekend := None, [], None;
      i, w, iStack := 0, 0, [];
      Repr := {};
      new;
      AddAll(cs, fs);
      Start();
    }

    /** The end of the constructor: select the first calendar, synch, take
        the weekend of the selected member, and synch again. */
    method Start()
      requires Members() && AtAnchors() && id == None && weekend == None
      modifies this, Repr
      ensures Valid() && Reg() == old(Reg()) && Repr == old(Repr)
      ensures variation == old(variation) && iStack == old(iStack)
      ensures names == [] ==> id == None && weekend == None && i == 0
      ensures names != [] ==> id == Some(names[0]) && weekend == Some(Weekend(Systems()[0]))
      ensures names != [] ==> i == TableOf(Systems()[0]).baseI
    {
      if names != [] {
        assert IndexOf(names, names[0]) == 0;
        assert cals[0] in Repr && Usable(cals[0]);
      }
      Select("");
      Synch();
      TakeWeekend();
      Synch();
    }

    /** The constructor's copy of the selected member's weekend. */
    method TakeWeekend()
      requires Valid()
      modifies this`weekend
      ensures Valid()
      ensures weekend == if id.Some? then Some(Weekend(Selected().table.sys)) else old(weekend)
    {
      if id.Some? {
        weekend := Some(Weekend(Selected().table.sys));
      }
      assert Valid() == old(Valid());
    }

    /** The constructor's loop: add_calendar in fast mode on each entry,
        formal when its name is among `fs`. */
    method AddAll(cs: seq<(string, Option<string>)>, fs: seq<string>)
      requires Members() && Reg() == EmptyRegistry() && Repr == {} && id == None
      modifies this`names, this`variations, this`cals, this`formals, this`Repr
      ensures Members() && fresh(Repr) && AtAnchors()
      ensures Reg() == RegisterAll(cs, fs, variation)
    {
      for j := 0 to |cs|
        invariant Members() && fresh(Repr) && AtAnchors()
        invariant Reg() == RegisterAll(cs[..j], fs, variation)
      {
        var added := AddFast(cs[j].0, cs[j].1, cs[j].0 in fs);
        assert cs[..j + 1][..j] == cs[..j];
      }
      assert cs[..|cs|] == cs;
    }

    /** add_calendar: resolve the class (failing when even the base class
        is missing), create the member, put it under its name (a known name
        keeps its place), list it as formal when asked, and unless `fast`
        re-select and synch. */
    method AddCalendar(calendar: string, requested: Option<string>, formal: bool, fast: bool)
      returns (ok: bool)
      requires Members() && (id.Some? ==> id.value in names)
      modifies this, Repr
      ensures Members() && fresh(Repr - old(Repr))
      ensures ok <==> Resolve(calendar, requested, variation).Some?
      ensures Reg() == match Resolve(calendar, requested, variation)
                       case None => old(Reg())
                       case Some(found) => Register(old(Reg()), calendar, found.0, found.1, formal)
      ensures ok && !fast ==> Valid() && (old(id).Some? ==> id == old(id))
      ensures fast || !ok ==> id == old(id) && i == old(i)
      ensures variation == old(variation) && weekend == old(weekend) && iStack == old(iStack)
      ensures !ok ==> unchanged(this) && unchanged(Repr) && (old(Valid()) ==> Valid())
      ensures ok && !fast && old(Valid()) ==>
                i == if old(id).Some? && calendar != old(id).value then old(i)
                     else TableOf(Resolve(calendar, requested, variation).value.0).baseI
      ensures ok && !fast && old(Valid()) && old(id).Some? && calendar != old(id).value ==>
                w == old(w)
    {
      ok := AddFast(calendar, requested, formal);
      if ok && !fast {
        Reselect();
      }
    }

    /** add_calendar up to its `fast` test. */
    method AddFast(calendar: string, requested: Option<string>, formal: bool) returns (ok: bool)
      requires Members() && (id.Some? ==> id.value in names)
      modifies this`names, this`variations, this`cals, this`formals, this`Repr
      ensures Members() && fresh(Repr - old(Repr)) && old(names) <= names
      ensures forall c :: c in Repr - old(Repr) ==> c.i == c.table.baseI
      ensures !ok ==> unchanged(this)
      ensures ok <==> Resolve(calendar, requested, variation).Some?
      ensures ok && old(Valid()) ==> names != [] && (id.Some? ==> id.value in names)
      ensures ok && old(Valid()) ==>
                Pick().i == if old(id).Some? && calendar != old(id).value then old(i)
                            else TableOf(Resolve(calendar, requested, variation).value.0).baseI
      ensures Reg() == match Resolve(calendar, requested, variation)
                       case None => old(Reg())
                       case Some(found) => Register(old(Reg()), calendar, found.0, found.1, formal)
    {
      var found := Resolve(calendar, requested, variation);
      if found.None? {
        return false;
      }
      ok := true;
      AddFound(calendar, found.value.0, found.value.1, formal);
    }

    /** add_calendar once the class is found. The member select() settles on
        afterwards is at the new member's base index when it takes the
        selected name or when there were no names; otherwise, in a
        synchronised multi-calendar, it is still at the shared index. */
    method AddFound(calendar: string, sys: System, recorded: Option<string>, formal: bool)
      requires Members() && Truthy(calendar) && (id.Some? ==> id.value in names)
      modifies this`names, this`variations, this`cals, this`formals, this`Repr
      ensures Members() && fresh(Repr - old(Repr)) && old(names) <= names
      ensures forall c :: c in Repr - old(Repr) ==> c.i == c.table.baseI
      ensures Reg() == Register(old(Reg()), calendar, sys, recorded, formal)
      ensures names != [] && (id.Some? ==> id.value in names)
      ensures old(Valid()) ==>
                Pick().i == if old(id).Some? && calendar != old(id).value then old(i) else TableOf(sys).baseI
    {
      var inst := AddNew(calendar, sys, recorded, formal);
      if old(names) != [] && (if id.Some? then id.value else old(names[0])) != calendar {
        assert old(Pick()) in old(Repr);
      }
    }

    /** add_calendar once the class is found: `new $klass ()` and the
        registration. The member select() settles on afterwards is the new
        one, at its class's base index, when it takes the selected name or
        when there were no names; otherwise it is the one settled on before.
        No member that was there before moves. */
    method AddNew(calendar: string, sys: System, recorded: Option<string>, formal: bool)
      returns (inst: SimpleCalendar)
      requires Members() && Truthy(calendar) && (id.Some? ==> id.value in names)
      modifies this`names, this`variations, this`cals, this`formals, this`Repr
      ensures Members() && fresh(inst) && Repr == old(Repr) + {inst} && old(names) <= names
      ensures Reg() == Register(old(Reg()), calendar, sys, recorded, formal)
      ensures names != [] && (id.Some? ==> id.value in names)
      ensures Pick() == if old(names) != [] && (if id.Some? then id.value else old(names[0])) != calendar
                        then Chosen(old(names), old(cals), id) else inst
      ensures inst.table == TableOf(sys) && inst.i == inst.table.baseI
    {
      inst := NewMember(sys);
      Enroll(calendar, sys, recorded, formal, inst);
    }

    /** add_calendar's registration of `inst`, the new member. The member
        select() settles on afterwards is `inst` when it takes the selected
        name, or the first name when nothing is selected; otherwise it is the
        one settled on before. */
    method Enroll(calendar: string, sys: System, recorded: Option<string>, formal: bool,
                  inst: SimpleCalendar)
      requires Members() && Truthy(calendar) && (id.Some? ==> id.value in names)
      requires Usable(inst) && inst.table.sys == sys && inst !in Repr
      modifies this`names, this`variations, this`cals, this`formals, this`Repr
      ensures Members() && Repr == old(Repr) + {inst} && old(names) <= names
      ensures Reg() == Register(old(Reg()), calendar, sys, recorded, formal)
      ensures names != [] && (id.Some? ==> id.value in names)
      ensures Pick() == if old(names) != [] && (if id.Some? then id.value else old(names[0])) != calendar
                        then Chosen(old(names), old(cals), id) else inst
    {
      Upsert(calendar, sys, recorded, formal, inst);
      MergedChosen(old(names), old(cals), calendar, inst, id);
    }

    /** The end of a slow add_calendar: select the current id again (the
        first name when there is none) and synch. */
    method Reselect()
      requires Members() && (id.Some? ==> id.value in names)
      modifies this, Repr
      ensures Valid() && Reg() == old(Reg()) && names == old(names) && Repr == old(Repr)
      ensures old(id).Some? ==> id == old(id)
      ensures variation == old(variation) && weekend == old(weekend) && iStack == old(iStack)
      ensures names != [] ==> i == old(Pick().i)
    {
      if id.None? && names != [] {
        assert IndexOf(names, names[0]) == 0;
      }
      Select(if id.Some? then id.value else "");
      Synch();
    }

    /** add_calendar's array_merge into `calendars` and `cals` and its
        append to `formals`. */
    method Upsert(calendar: string, sys: System, recorded: Option<string>, formal: bool,
                  inst: SimpleCalendar)
      requires Members() && Truthy(calendar)
      requires Usable(inst) && inst.table.sys == sys && inst !in Repr
      modifies this`names, this`variations, this`cals, this`formals, this`Repr
      ensures Members() && Repr == old(Repr) + {inst} && old(names) <= names
      ensures Reg() == Register(old(Reg()), calendar, sys, recorded, formal)
      ensures names == MergedKeys(old(names), calendar)
      ensures cals == MergedAt(old(names), old(cals), calendar, inst)
    {
      RegisterFormal(Reg(), calendar, sys, recorded, formal);
      Merge(calendar, sys, recorded, inst);
      if formal {
        AddFormal(calendar);
      }
    }

    /** The two array_merge calls: the name keeps its place or goes last. */
    method Merge(calendar: string, sys: System, recorded: Option<string>, inst: SimpleCalendar)
      requires Members() && Truthy(calendar)
      requires Usable(inst) && inst.table.sys == sys && inst !in Repr
      modifies this`names, this`variations, this`cals, this`Repr
      ensures Members() && Repr == old(Repr) + {inst} && old(names) <= names
      ensures Reg() == Register(old(Reg()), calendar, sys, recorded, false)
      ensures names == MergedKeys(old(names), calendar)
      ensures cals == MergedAt(old(names), old(cals), calendar, inst)
    {
      ghost var target := Register(Reg(), calendar, sys, recorded, false);
      if calendar in names {
        Replace(IndexOf(names, calendar), recorded, inst);
      } else {
        Append(calendar, recorded, inst);
      }
      assert Registry(names, variations, Systems(), target.formals) == target;
    }

    /** add_calendar's append to `formals`. */
    method AddFormal(calendar: string)
      requires Members() && calendar in names
      modifies this`formals
      ensures Members() && formals == old(formals) + [calendar]
    {
      OwnedFormal(names, variations, cals, formals, Repr, calendar);
      formals := formals + [calendar];
    }

    /** A known name keeps its place and gets the new member. */
    method Replace(k: nat, recorded: Option<string>, inst: SimpleCalendar)
      requires Members() && k < |names|
      requires Usable(inst) && inst !in Repr
      modifies this`variations, this`cals, this`Repr
      ensures Members() && Repr == old(Repr) + {inst}
      ensures variations == old(variations)[k := recorded] && cals == old(cals)[k := inst]
      ensures Systems() == old(Systems())[k := inst.table.sys]
    {
      OwnedReplace(names, variations, cals, formals, Repr, k, recorded, inst);
      assert forall c :: c in Repr + {inst} ==> c as object != this as object;
      variations, cals, Repr := variations[k := recorded], cals[k := inst], Repr + {inst};
    }

    /** A new name goes last. */
    method Append(calendar: string, recorded: Option<string>, inst: SimpleCalendar)
      requires Members() && Truthy(calendar) && calendar !in names
      requires Usable(inst) && inst !in Repr
      modifies this`names, this`variations, this`cals, this`Repr
      ensures Members() && Repr == old(Repr) + {inst}
      ensures names == old(names) + [calendar]
      ensures variations == old(variations) + [recorded] && cals == old(cals) + [inst]
      ensures Systems() == old(Systems()) + [inst.table.sys]
    {
      OwnedAppend(names, variations, cals, formals, Repr, calendar, recorded, inst);
      assert forall c :: c in Repr + {inst} ==> c as object != this as object;
      names, variations, cals, Repr := names + [calendar], variations + [recorded], cals + [inst], Repr + {inst};
    }

    // ---------------------------------------------------------- selection

    /** select: a false id keeps the current selection, or selects the
        first name when there is none; the selected name is put at the head
        of `scals`. */
    method Select(sid: string)
      requires Members() && (Truthy(sid) ==> sid in names)
      requires id.Some? && !Truthy(sid) ==> Selection()
      modifies this
      ensures Members() && Selection()
      ensures Truthy(sid) ==> id == Some(sid)
      ensures !Truthy(sid) && old(id).Some? ==> id == old(id)
      ensures !Truthy(sid) && old(id).None? ==> id == (if names == [] then None else Some(names[0]))
      ensures names == old(names) && variations == old(variations) && cals == old(cals)
      ensures formals == old(formals) && variation == old(variation) && weekend == old(weekend)
      ensures i == old(i) && w == old(w) && iStack == old(iStack) && Repr == old(Repr)
      ensures old(Valid()) ==> Valid()
    {
      var target := sid;
      if !Truthy(sid) {
        if id.Some? {
          return;
        }
        if names == [] {
          // no first key to select
          scals := [];
          assert Members() == old(Members()) && Synched() == old(Synched());
          return;
        }
        target := names[0];
      }
      id := Some(target);
      scals := SelectedFirst(names, target);
      assert Members() == old(Members()) && Synched() == old(Synched());
    }

    /** One call of multiplex('move_to', n): the member at position k goes
        to index n, the others stay where they are. */
    method MoveMemberTo(k: nat, n: int)
      requires Members() && k < |cals|
      modifies cals[k]
      ensures Members()
      ensures cals[k].i == n
      ensures forall j :: 0 <= j < |cals| && j != k ==> cals[j].i == old(cals[j].i)
    {
      assert Usable(cals[k]);
      cals[k].MoveTo(n, I);
      forall j | 0 <= j < |cals|
        ensures Usable(cals[j])
      {
        if j != k {
          assert cals[j] != cals[k] && old(Usable(cals[j]));
        }
      }
    }

    /** multiplex('move_to', n) over the keys in `order`: each listed
        member goes to index n. */
    method MultiplexMoveTo(order: seq<string>, n: int)
      requires Members() && forall x :: x in order ==> x in names
      modifies Repr
      ensures Members()
      ensures forall t :: 0 <= t < |order| ==> Member(order[t]).i == n
    {
      ghost var pos := Positions(names, order);
      for j := 0 to |order|
        modifies Repr
        invariant Members()
        invariant forall t :: 0 <= t < j ==> cals[pos[t]].i == n
      {
        label before:
        var k := IndexOf(names, order[j]);
        MoveMemberTo(k, n);
        forall t | 0 <= t < j + 1
          ensures cals[pos[t]].i == n
        {
          if pos[t] != k {
            assert cals[pos[t]].i == old@before(cals[pos[t]].i);
          }
        }
      }
    }

    /** synch: take the selected member's index (0 without one), move every
        member to it in multiplex order (the index doubling as the order
        flag), then recompute the weekday. */
    method Synch()
      requires Members() && Selection()
      modifies this, Repr
      ensures Valid()
      ensures i == if old(id).Some? then old(Selected().i) else 0
      ensures names == old(names) && variations == old(variations) && cals == old(cals)
      ensures formals == old(formals) && variation == old(variation) && weekend == old(weekend)
      ensures id == old(id) && scals == old(scals) && iStack == old(iStack) && Repr == old(Repr)
    {
      var target := if id.Some? then Selected().i else 0;
      var order := MultiplexOrder(target != 0);
      if id.Some? {
        SelectedFirstCovers(names, id.value);
      }
      MultiplexMoveTo(order, target);
      forall k | 0 <= k < |cals|
        ensures cals[k].i == target
      {
        var t := PositionInOrder(names, order, k);
      }
      i := target;
      w := PhpRem(5 + i, WeekLength);
    }
  
    /** The facts a call on a member relies on: it is usable, at the shared
        index, and its table is the one recorded for its name. */
    lemma MemberFacts(name: string)
      requires Valid() && name in names
      ensures Usable(Member(name)) && Member(name).i == i
    {
      var k := IndexOf(names, name);
      assert Usable(cals[k]);
    }

    // ------------------------------------------------------------ queries

    /** is_weekend: the weekday is one of the weekend days; while the
        weekend is still unset (-1) array_search returns null, which is not
        false, so every day counts as weekend. */
    function IsWeekend(): (r: bool)
      requires Valid()
      reads this`names, this`variations, this`cals, this`formals, this`id, this`scals, this`i, this`w
      reads this`Repr, Repr, this`weekend
      ensures r <==> weekend.None? || WeekDay(i) in weekend.value
    {
      weekend.None? || w in weekend.value
    }

    /** For each formal name in turn, whether its member lists a holiday on
        the shared day. */
    ghost function FormalHolidays(): (r: seq<bool>)
      requires Members()
      reads this`names, this`variations, this`cals, this`formals, this`Repr, Repr, this`i
      ensures |r| == |formals|
    {
      HolidayFlags(cals, names, formals, i)
    }

    /** is_other_holiday of the member of the t-th formal name. */
    function MemberHoliday(t: nat): (b: bool)
      requires Valid() && t < |formals|
      reads this`names, this`variations, this`cals, this`formals, this`id, this`scals, this`i, this`w
      reads this`Repr, Repr
      ensures b == FormalHolidays()[t]
    {
      MemberFacts(formals[t]);
      Member(formals[t]).IsOtherHoliday()
    }

    /** is_other_holiday: some formal member has a listed holiday on the
        shared day; the members are asked in the order of `formals`. */
    method IsOtherHoliday() returns (r: bool)
      requires Valid()
      ensures r <==> true in FormalHolidays()
    {
      ghost var flags := FormalHolidays();
      for j := 0 to |formals|
        invariant true !in flags[..j]
      {
        if MemberHoliday(j) {
          assert flags[j];
          return true;
        }
        NoneTrueSnoc(flags, j);
      }
      assert flags[..|formals|] == flags;
      return false;
    }

    /** is_holiday: a weekend day or a holiday of a formal member. */
    method IsHoliday() returns (r: bool)
      requires Valid()
      ensures r <==> weekend.None? || WeekDay(i) in weekend.value || true in FormalHolidays()
    {
      var other := IsOtherHoliday();
      r := IsWeekend() || other;
    }

    /** get_annotations: the members' annotations for the shared day,
        merged in key order. */
    method GetAnnotations() returns (r: seq<string>)
      requires Valid()
      ensures r == Concat(MemberAnnotations(cals, i))
    {
      ghost var all := MemberAnnotations(cals, i);
      r := [];
      for k := 0 to |cals|
        invariant r == Concat(all[..k])
      {
        assert Usable(cals[k]);
        var a := cals[k].GetAnnotations();
        ConcatSnoc(all, k);
        r := r + a;
      }
      assert all[..|cals|] == all;
    }

    // -------------------------------------------------------------- moves

    /** The selected member's own move. */
    method MoveMember(k: nat, n: int, what: string, minimal: bool) returns (ok: bool)
      requires Members() && k < |cals| && Usable(cals[k])
      modifies cals[k]
      ensures Members()
      ensures ok <==> n == 0 || GetUnit(what).Some?
      ensures !ok || n == 0 ==> cals[k].i == old(cals[k].i)
      ensures ok && n != 0 ==>
                cals[k].Today() == UnitMoved(cals[k].table, old(cals[k].Today()), GetUnit(what).value, n, minimal)
      ensures GetUnit(what) == Some(Day) ==> cals[k].i == old(cals[k].i) + n
    {
      assert Usable(cals[k]);
      ok := cals[k].Move(n, what, minimal);
      forall j | 0 <= j < |cals|
        ensures Usable(cals[j])
      {
        if j != k {
          assert cals[j] != cals[k] && old(Usable(cals[j]));
        }
      }
    }

    /** move: the selected member moves (an empty multi-calendar has none),
        then synch brings every member to its index. */
    method Move(n: int, what: string, minimal: bool) returns (ok: bool)
      requires Valid()
      modifies this, Repr
      ensures Valid() && Reg() == old(Reg()) && id == old(id) && scals == old(scals)
      ensures variation == old(variation) && weekend == old(weekend) && iStack == old(iStack)
      ensures Repr == old(Repr)
      ensures ok <==> id.None? || n == 0 || GetUnit(what).Some?
      ensures id.None? ==> i == 0
      ensures id.Some? && (!ok || n == 0) ==> i == old(i)
      ensures id.Some? && ok && n != 0 ==>
                Selected().Today() == UnitMoved(Selected().table, old(Selected().Today()),
                                                GetUnit(what).value, n, minimal)
      ensures id.Some? && GetUnit(what) == Some(Day) ==> i == old(i) + n
    {
      if id.None? {
        ok := true;
        Synch();
        return;
      }
      var k := IndexOf(names, id.value);
      assert Usable(cals[k]);
      ok := MoveMember(k, n, what, minimal);
      ghost var c, here, at := cals[k], cals[k].Today(), cals[k].i;
      assert Usable(c);
      Synch();
      assert Usable(cals[k]);
      DayNumberInjective(c.table, here, c.Today());
    }

    /** move_to (inherited from Calendar): move by n minus the multi-
        calendar's own value of the field. Only `i` and `w` are fields of a
        multi-calendar; `d`, `m` and `y` read as 0, so for them the move is
        by n units rather than to n. */
    method MoveTo(n: int, f: Field)
      requires Valid()
      modifies this, Repr
      ensures Valid() && Reg() == old(Reg()) && id == old(id) && scals == old(scals)
      ensures variation == old(variation) && weekend == old(weekend) && iStack == old(iStack)
      ensures Repr == old(Repr)
      ensures id.Some? && f == I ==> i == n
      ensures id.Some? && f == W ==> i == old(i) + n - old(w)
      ensures id.Some? && f == D ==> i == old(i) + n
      ensures id.Some? && (f == M || f == Y) && n != 0 ==>
                Selected().Today() == UnitMoved(Selected().table, old(Selected().Today()),
                                                if f == M then Month else Year, n, false)
      ensures id.Some? && (f == M || f == Y) && n == 0 ==> i == old(i)
      ensures id.None? ==> i == 0
    {
      var ok;
      match f
      case I => ok := Move(n - i, "i", false);
      case W => ok := Move(n - w, "w", false);
      case D => ok := Move(n, "d", false);
      case M => ok := Move(n, "m", false);
      case Y => ok := Move(n, "y", false);
    }

    /** move_today: move to the day index of a Unix time given in seconds. */
    method MoveToday(seconds: int)
      requires Valid()
      modifies this, Repr
      ensures Valid() && Reg() == old(Reg()) && id == old(id) && scals == old(scals)
      ensures variation == old(variation) && weekend == old(weekend) && iStack == old(iStack)
      ensures Repr == old(Repr)
      ensures id.Some? ==> i == SecondsToIndex(seconds)
    {
      MoveTo(SecondsToIndex(seconds), I);
    }

    /** save: push the shared index. */
    method Save()
      requires Valid()
      modifies this`iStack
      ensures Valid() && iStack == old(iStack) + [i]
    {
      iStack := iStack + [i];
      assert Valid() == old(Valid());
    }

    /** restore: pop an index and move the multi-calendar back to it. */
    method Restore()
      requires Valid() && |iStack| > 0
      modifies this, Repr
      ensures Valid() && Reg() == old(Reg()) && id == old(id) && scals == old(scals)
      ensures variation == old(variation) && weekend == old(weekend) && Repr == old(Repr)
      ensures iStack == old(iStack[..|iStack| - 1])
      ensures id.Some? ==> i == old(iStack[|iStack| - 1])
    {
      var top := iStack[|iStack| - 1];
      iStack := iStack[..|iStack| - 1];
      assert Valid() == old(Valid());
      MoveTo(top, I);
    }
  }
}
