/**
 * `SQLiCrawler.inject` (sqli_crawler/crawler.py:277-290) and the truncation of
 * its output by `itertools.islice` (sqli_crawler/crawler.py:352-354).
 *
 * `inject(*args)` walks the dictionaries it is given in order, skips `None`
 * and empty ones, and for every field whose value it can turn into text yields
 * a copy of `args` in which that one field has `QUOTES` appended.
 */
module Injection {
  import opened Wrappers
  import opened Strings

  /** The probe suffix: a single quote followed by a double quote. */
  const QUOTES: string := "'\""

  /** A field value as Python sees it after parsing a query, form or JSON object. */
  datatype Value = Null | Int(i: int) | Bool(b: bool) | Str(s: string) | Other

  /** One `key: value` pair of a dictionary. */
  datatype Entry = Entry(key: string, value: Value)

  /** A Python `dict`: its entries in insertion order. */
  type Dict = seq<Entry>

  /** The positional arguments of `inject`: each a dictionary or `None`. */
  type Args = seq<Option<Dict>>

  /** Field `index` of dictionary `slot`. */
  datatype Pos = Pos(slot: nat, index: nat)

  /**
   * The text a value is turned into before the probe is appended: `None`
   * becomes `"null"`, an int or a bool becomes `str(v).lower()`, a string is
   * kept; any other value is skipped.
   */
  function Text(v: Value): (r: Option<string>)
    ensures r.None? <==> v.Other?
    ensures v.Null? ==> r == Some("null")
    ensures v.Bool? ==> r == Some(if v.b then "true" else "false")
    ensures v.Int? ==> r == Some(Decimal(v.i))
    ensures v.Str? ==> r == Some(v.s)
  {
    match v
    case Null => Some("null")
    case Int(i) => DecimalIsLowerCase(i); Some(LowerAscii(Decimal(i)))
    case Bool(b) =>
      assert LowerAscii("True") == "true";
      assert LowerAscii("False") == "false";
      Some(LowerAscii(if b then "True" else "False"))
    case Str(s) => Some(s)
    case Other => None
  }

  predicate Injectable(v: Value) {
    !v.Other?
  }

  predicate IsPos(args: Args, p: Pos) {
    p.slot < |args| && args[p.slot].Some? && p.index < |args[p.slot].value|
  }

  /** Field `p` exists and holds a value `inject` mutates. */
  predicate Eligible(args: Args, p: Pos) {
    IsPos(args, p) && Injectable(args[p.slot].value[p.index].value)
  }

  /**
   * The variant for field `p`: `copy = data.copy(); copy[k] = v + QUOTES`,
   * with every other argument passed through.
   */
  function Mutate(args: Args, p: Pos): (r: Args)
    requires Eligible(args, p)
    ensures |r| == |args|
    ensures forall s | 0 <= s < |args| && s != p.slot :: r[s] == args[s]
    ensures r[p.slot].Some? && |r[p.slot].value| == |args[p.slot].value|
    ensures forall i | 0 <= i < |args[p.slot].value| ::
      && r[p.slot].value[i].key == args[p.slot].value[i].key
      && (r[p.slot].value[i] == args[p.slot].value[i] <==> i != p.index)
    ensures r[p.slot].value[p.index].value == Str(Text(args[p.slot].value[p.index].value).value + QUOTES)
  {
    var d := args[p.slot].value;
    var field := d[p.index];
    var probe := Text(field.value).value + QUOTES;
    assert field.value != Str(probe) by {
      if field.value.Str? { assert |probe| == |field.value.s| + 2; }
    }
    args[p.slot := Some(d[p.index := Entry(field.key, Str(probe))])]
  }

  /** The variants for fields `index..` of dictionary `slot`, in insertion order. */
  function EntryVariants(args: Args, slot: nat, index: nat): seq<Args>
    requires slot < |args| && args[slot].Some? && index <= |args[slot].value|
    decreases |args[slot].value| - index
  {
    if index == |args[slot].value| then []
    else
      var rest := EntryVariants(args, slot, index + 1);
      if Injectable(args[slot].value[index].value) then [Mutate(args, Pos(slot, index))] + rest else rest
  }

  /** The variants for arguments `slot..`: `None` (and an empty dictionary) give none. */
  function SlotVariants(args: Args, slot: nat): seq<Args>
    requires slot <= |args|
    decreases |args| - slot
  {
    if slot == |args| then []
    else (if args[slot].Some? then EntryVariants(args, slot, 0) else []) + SlotVariants(args, slot + 1)
  }

  /**
   * Everything `inject(*args)` yields, in the order it yields it; each variant
   * has as many arguments as the call. Which fields the variants mutate, and
   * in what order, is stated against the reference definition below.
   */
  function Inject(args: Args): (r: seq<Args>)
    ensures forall v | v in r :: |v| == |args|
  {
    SlotVariantsArePositions(args, 0);
    SlotVariants(args, 0)
  }

  // ---------------------------------------------------------------------------
  // Reference definition: the eligible fields, listed in (argument, key) order.

  /** `p` comes before `q`: an earlier argument, or an earlier key of the same one. */
  predicate Before(p: Pos, q: Pos) {
    p.slot < q.slot || (p.slot == q.slot && p.index < q.index)
  }

  predicate StrictlyOrdered(ps: seq<Pos>) {
    forall m, n | 0 <= m < n < |ps| :: Before(ps[m], ps[n])
  }

  /** Every field that `inject` can mutate, as a set. */
  ghost function EligibleSet(args: Args): set<Pos> {
    set s, i | 0 <= s < |args| && args[s].Some? && 0 <= i < |args[s].value|
                 && Injectable(args[s].value[i].value) :: Pos(s, i)
  }

  ghost function EntryPositions(args: Args, slot: nat, index: nat): seq<Pos>
    requires slot < |args| && args[slot].Some? && index <= |args[slot].value|
    decreases |args[slot].value| - index
  {
    if index == |args[slot].value| then []
    else
      var rest := EntryPositions(args, slot, index + 1);
      if Injectable(args[slot].value[index].value) then [Pos(slot, index)] + rest else rest
  }

  ghost function SlotPositions(args: Args, slot: nat): seq<Pos>
    requires slot <= |args|
    decreases |args| - slot
  {
    if slot == |args| then []
    else (if args[slot].Some? then EntryPositions(args, slot, 0) else []) + SlotPositions(args, slot + 1)
  }

  /** The eligible fields in the order the generator visits them. */
  ghost function Positions(args: Args): seq<Pos> {
    SlotPositions(args, 0)
  }

  lemma {:induction false} EntryPositionsExact(args: Args, slot: nat, index: nat)
    requires slot < |args| && args[slot].Some? && index <= |args[slot].value|
    ensures forall p :: p in EntryPositions(args, slot, index) <==> Eligible(args, p) && p.slot == slot && p.index >= index
    ensures forall m, n | 0 <= m < n < |EntryPositions(args, slot, index)| ::
      EntryPositions(args, slot, index)[m].index < EntryPositions(args, slot, index)[n].index
    decreases |args[slot].value| - index
  {
    if index < |args[slot].value| {
      EntryPositionsExact(args, slot, index + 1);
    }
  }

  lemma {:induction false} SlotPositionsExact(args: Args, slot: nat)
    requires slot <= |args|
    ensures forall p :: p in SlotPositions(args, slot) <==> Eligible(args, p) && p.slot >= slot
    ensures StrictlyOrdered(SlotPositions(args, slot))
    decreases |args| - slot
  {
    if slot < |args| {
      SlotPositionsExact(args, slot + 1);
      var here: seq<Pos> := if args[slot].Some? then EntryPositions(args, slot, 0) else [];
      if args[slot].Some? {
        EntryPositionsExact(args, slot, 0);
      }
      var rest := SlotPositions(args, slot + 1);
      assert SlotPositions(args, slot) == here + rest;
      forall p
        ensures p in here + rest <==> Eligible(args, p) && p.slot >= slot
      {
        if p.slot == slot && Eligible(args, p) {
          assert p in here;
        }
      }
      ConcatOrdered(here, rest, slot);
    }
  }

  /** Joining the ordered positions of one argument with those of later ones keeps the order. */
  lemma ConcatOrdered(here: seq<Pos>, rest: seq<Pos>, slot: nat)
    requires forall p | p in here :: p.slot == slot
    requires forall m, n | 0 <= m < n < |here| :: here[m].index < here[n].index
    requires forall p | p in rest :: p.slot > slot
    requires StrictlyOrdered(rest)
    ensures StrictlyOrdered(here + rest)
  {
    var all := here + rest;
    forall m, n | 0 <= m < n < |all|
      ensures Before(all[m], all[n])
    {
      if n < |here| {
        assert all[m] == here[m] && all[n] == here[n];
      } else if m < |here| {
        assert all[m] in here && all[n] in rest;
      } else {
        assert all[m] == rest[m - |here|] && all[n] == rest[n - |here|];
      }
    }
  }

  /** The positions list exactly the eligible fields, strictly in (argument, key) order. */
  lemma PositionsExact(args: Args)
    ensures forall p :: p in Positions(args) <==> Eligible(args, p)
    ensures StrictlyOrdered(Positions(args))
  {
    SlotPositionsExact(args, 0);
  }

  lemma {:induction false} EntryVariantsArePositions(args: Args, slot: nat, index: nat)
    requires slot < |args| && args[slot].Some? && index <= |args[slot].value|
    ensures var ps := EntryPositions(args, slot, index);
      && (forall p | p in ps :: Eligible(args, p))
      && |EntryVariants(args, slot, index)| == |ps|
      && forall n | 0 <= n < |ps| :: EntryVariants(args, slot, index)[n] == Mutate(args, ps[n])
    decreases |args[slot].value| - index
  {
    if index < |args[slot].value| {
      EntryVariantsArePositions(args, slot, index + 1);
      var ps := EntryPositions(args, slot, index);
      var rest := EntryPositions(args, slot, index + 1);
      var vs := EntryVariants(args, slot, index);
      var vrest := EntryVariants(args, slot, index + 1);
      if Injectable(args[slot].value[index].value) {
        var here := Pos(slot, index);
        assert ps == [here] + rest && vs == [Mutate(args, here)] + vrest;
        forall p | p in ps
          ensures Eligible(args, p)
        {
          if p != here {
            assert p in rest;
          }
        }
        forall n | 0 <= n < |ps|
          ensures vs[n] == Mutate(args, ps[n])
        {
          if n > 0 {
            assert vs[n] == vrest[n - 1] && ps[n] == rest[n - 1];
          }
        }
      } else {
        assert ps == rest && vs == vrest;
      }
    }
  }

  lemma {:induction false} SlotVariantsArePositions(args: Args, slot: nat)
    requires slot <= |args|
    ensures var ps := SlotPositions(args, slot);
      && (forall p | p in ps :: Eligible(args, p))
      && |SlotVariants(args, slot)| == |ps|
      && forall n | 0 <= n < |ps| :: SlotVariants(args, slot)[n] == Mutate(args, ps[n])
    decreases |args| - slot
  {
    if slot < |args| {
      SlotVariantsArePositions(args, slot + 1);
      if args[slot].Some? {
        EntryVariantsArePositions(args, slot, 0);
      }
      var here: seq<Pos> := if args[slot].Some? then EntryPositions(args, slot, 0) else [];
      var vhere: seq<Args> := if args[slot].Some? then EntryVariants(args, slot, 0) else [];
      var rest := SlotPositions(args, slot + 1);
      var vrest := SlotVariants(args, slot + 1);
      assert SlotPositions(args, slot) == here + rest && SlotVariants(args, slot) == vhere + vrest;
      ConcatMutations(args, here, vhere, rest, vrest);
    }
  }

  /** Joining two runs of variants that match their positions gives a run that matches. */
  lemma ConcatMutations(args: Args, here: seq<Pos>, vhere: seq<Args>, rest: seq<Pos>, vrest: seq<Args>)
    requires forall p | p in here :: Eligible(args, p)
    requires forall p | p in rest :: Eligible(args, p)
    requires |vhere| == |here| && forall n | 0 <= n < |here| :: vhere[n] == Mutate(args, here[n])
    requires |vrest| == |rest| && forall n | 0 <= n < |rest| :: vrest[n] == Mutate(args, rest[n])
    ensures forall p | p in here + rest :: Eligible(args, p)
    ensures |vhere + vrest| == |here + rest|
    ensures forall n | 0 <= n < |here + rest| :: (vhere + vrest)[n] == Mutate(args, (here + rest)[n])
  {
    assert forall n | 0 <= n < |here + rest| :: (here + rest)[n] in here + rest;
    forall n | 0 <= n < |here + rest|
      ensures (vhere + vrest)[n] == Mutate(args, (here + rest)[n])
    {
      if n >= |here| {
        assert (vhere + vrest)[n] == vrest[n - |here|] && (here + rest)[n] == rest[n - |here|];
      }
    }
  }

  /**
   * The generator yields, for each eligible field in (argument, key) order,
   * the variant that mutates exactly that field.
   */
  lemma InjectEnumeratesPositions(args: Args)
    ensures forall p | p in Positions(args) :: Eligible(args, p)
    ensures |Inject(args)| == |Positions(args)|
    ensures forall n | 0 <= n < |Positions(args)| :: Inject(args)[n] == Mutate(args, Positions(args)[n])
  {
    SlotVariantsArePositions(args, 0);
  }

  lemma {:induction false} OrderedSeqCardinality(ps: seq<Pos>)
    requires StrictlyOrdered(ps)
    ensures |set p | p in ps| == |ps|
  {
    if ps != [] {
      var last := ps[|ps| - 1];
      var init := ps[..|ps| - 1];
      OrderedSeqCardinality(init);
      assert last !in init;
      assert (set p | p in ps) == (set p | p in init) + {last};
    }
  }

  /** There are exactly as many variants as there are eligible fields. */
  lemma InjectCount(args: Args)
    ensures |Inject(args)| == |EligibleSet(args)|
  {
    InjectEnumeratesPositions(args);
    PositionsExact(args);
    OrderedSeqCardinality(Positions(args));
    assert (set p | p in Positions(args)) == EligibleSet(args);
  }

  /**
   * Every variant is the input with exactly one eligible field of one
   * dictionary mutated; every other argument and field is unchanged.
   */
  lemma InjectVariantShape(args: Args, n: nat)
    requires n < |Inject(args)|
    ensures exists p :: Eligible(args, p) && Inject(args)[n] == Mutate(args, p)
  {
    InjectEnumeratesPositions(args);
    var p := Positions(args)[n];
    assert Eligible(args, p) && Inject(args)[n] == Mutate(args, p);
  }

  /**
   * Variant `m` comes before variant `n` exactly when its field comes first in
   * (argument, key) order: all of `params`, then all of `data`, then `json`.
   */
  lemma InjectOrder(args: Args, m: nat, n: nat)
    requires m < n < |Inject(args)|
    ensures |Positions(args)| == |Inject(args)|
    ensures Eligible(args, Positions(args)[m]) && Eligible(args, Positions(args)[n])
    ensures Inject(args)[m] == Mutate(args, Positions(args)[m])
    ensures Inject(args)[n] == Mutate(args, Positions(args)[n])
    ensures Before(Positions(args)[m], Positions(args)[n])
  {
    InjectEnumeratesPositions(args);
    PositionsExact(args);
  }

  /** For example, `params={a: "1", b: "2"}` gives two variants. */
  lemma {:induction false} TwoParamsExample()
    ensures var params := [Entry("a", Str("1")), Entry("b", Str("2"))];
      Inject([Some(params), None, None]) == [
        [Some([Entry("a", Str("1'\"")), Entry("b", Str("2"))]), None, None],
        [Some([Entry("a", Str("1")), Entry("b", Str("2'\""))]), None, None]
      ]
  {
    var params := [Entry("a", Str("1")), Entry("b", Str("2"))];
    var args: Args := [Some(params), None, None];
    assert "1" + QUOTES == "1'\"" && "2" + QUOTES == "2'\"";
    var first := Mutate(args, Pos(0, 0));
    assert first[0].value[0] == Entry("a", Str("1'\"")) && first[0].value[1] == Entry("b", Str("2"));
    assert first[0].value == [Entry("a", Str("1'\"")), Entry("b", Str("2"))];
    assert first == [Some([Entry("a", Str("1'\"")), Entry("b", Str("2"))]), None, None];
    var second := Mutate(args, Pos(0, 1));
    assert second[0].value[0] == Entry("a", Str("1")) && second[0].value[1] == Entry("b", Str("2'\""));
    assert second[0].value == [Entry("a", Str("1")), Entry("b", Str("2'\""))];
    assert second == [Some([Entry("a", Str("1")), Entry("b", Str("2'\""))]), None, None];
    assert EntryVariants(args, 0, 2) == [];
    assert EntryVariants(args, 0, 1) == [Mutate(args, Pos(0, 1))];
    assert EntryVariants(args, 0, 0) == [Mutate(args, Pos(0, 0)), Mutate(args, Pos(0, 1))];
    assert SlotVariants(args, 1) == [] by {
      assert SlotVariants(args, 3) == [];
      assert SlotVariants(args, 2) == [];
    }
  }

  // ---------------------------------------------------------------------------
  // Truncation.

  /** `sys.maxsize` on a 64-bit CPython: the largest `stop` that `islice` accepts. */
  const MAXSIZE: int := 0x7fff_ffff_ffff_ffff

  /**
   * `itertools.islice(xs, 0, stop)`: every element for `stop=None`, the first
   * `stop` ones otherwise; Python raises `ValueError` for a `stop` that is
   * negative or above `sys.maxsize`, modelled as `None`.
   */
  function Islice<T>(xs: seq<T>, stop: Option<int>): (r: Option<seq<T>>)
    ensures r.None? <==> stop.Some? && (stop.value < 0 || stop.value > MAXSIZE)
    ensures r.Some? ==> r.value <= xs
    ensures r.Some? && stop.None? ==> r.value == xs
    ensures r.Some? && stop.Some? ==> |r.value| == if stop.value < |xs| then stop.value else |xs|
  {
    match stop
    case None => Some(xs)
    case Some(n) =>
      if n < 0 || n > MAXSIZE then None
      else if n < |xs| then Some(xs[..n])
      else Some(xs)
  }
}
