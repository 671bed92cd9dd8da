/** Sorting the fields of a record struct by their encode-order attributes. */
module FieldOrder {
  import opened Common

  /** A struct field. `attr` is what parsing its attribute gives: an order, none, or an error. */
  datatype Field = Field(ident: string, attr: Result<Option<nat>>)

  type Prioritized = f: Field | f.attr.Ok? && f.attr.value.Some? witness Field("", Ok(Some(0)))

  function Order(f: Prioritized): nat {
    f.attr.value.value
  }

  predicate IsPrioritized(f: Field) {
    f.attr.Ok? && f.attr.value.Some?
  }

  function Prioritize(fs: seq<Field>): seq<Prioritized> {
    if fs == [] then []
    else Prioritize(fs[..|fs| - 1]) + if IsPrioritized(fs[|fs| - 1]) then [fs[|fs| - 1]] else []
  }

  function Plain(fs: seq<Field>): seq<Field> {
    if fs == [] then [] else (if IsPrioritized(fs[0]) then [] else [fs[0]]) + Plain(fs[1..])
  }

  ghost predicate UniqueIdents(fs: seq<Field>) {
    forall i, j :: 0 <= i < j < |fs| ==> fs[i].ident != fs[j].ident
  }

  ghost predicate BadAttrs(fs: seq<Field>) {
    || (exists i :: 0 <= i < |fs| && fs[i].attr.Err?)
    || (exists i, j :: 0 <= i < j < |fs| && Clashes(fs[i], fs[j]))
  }

  /** Both have the same order. */
  ghost predicate Clashes(a: Field, b: Field) {
    IsPrioritized(a) && IsPrioritized(b) && a.attr.value == b.attr.value
  }

  /** What the first attribute fails with that does not parse or repeats an order. */
  ghost function FirstBadAttr(fs: seq<Field>, seen: set<nat>): Option<Error>
    decreases |fs|
  {
    if fs == [] then None
    else if fs[0].attr.Err? then Some(fs[0].attr.error)
    else if fs[0].attr.value.None? then FirstBadAttr(fs[1..], seen)
    else if fs[0].attr.value.value in seen then Some(BadArgument("encode_order"))
    else FirstBadAttr(fs[1..], seen + {fs[0].attr.value.value})
  }

  /** The attribute of field `k` does not parse, or has an order that was seen or that a field in
      front of it has. */
  ghost predicate IsBad(fs: seq<Field>, seen: set<nat>, k: nat)
    requires k < |fs|
  {
    || fs[k].attr.Err?
    || (IsPrioritized(fs[k]) && fs[k].attr.value.value in seen)
    || exists i :: 0 <= i < k && Clashes(fs[i], fs[k])
  }

  lemma BadInTail(fs: seq<Field>, seen: set<nat>, k: nat)
    requires 0 < k < |fs| && fs[0].attr.Ok?
    ensures var later := if IsPrioritized(fs[0]) then seen + {fs[0].attr.value.value} else seen;
            IsBad(fs, seen, k) <==> IsBad(fs[1..], later, k - 1)
  {
    if i :| 0 <= i < k && Clashes(fs[i], fs[k]) {
      assert i > 0 ==> Clashes(fs[1..][i - 1], fs[1..][k - 1]);
    }
    if i :| 0 <= i < k - 1 && Clashes(fs[1..][i], fs[1..][k - 1]) {
      assert Clashes(fs[i + 1], fs[k]);
    }
    if IsPrioritized(fs[0]) && IsPrioritized(fs[k]) && fs[0].attr.value == fs[k].attr.value {
      assert Clashes(fs[0], fs[k]);
    }
  }

  /** The error is that of the first field whose attribute is bad. */
  lemma {:induction false} FirstBadAttrIs(fs: seq<Field>, seen: set<nat>, k: nat)
    requires k < |fs| && IsBad(fs, seen, k) && forall i :: 0 <= i < k ==> !IsBad(fs, seen, i)
    ensures FirstBadAttr(fs, seen) ==
            Some(if fs[k].attr.Err? then fs[k].attr.error else BadArgument("encode_order"))
    decreases k
  {
    if k > 0 {
      assert !IsBad(fs, seen, 0);
      var later := if IsPrioritized(fs[0]) then seen + {fs[0].attr.value.value} else seen;
      forall i | 0 < i <= k ensures IsBad(fs, seen, i) <==> IsBad(fs[1..], later, i - 1) {
        BadInTail(fs, seen, i);
      }
      forall i | 0 <= i < k - 1 ensures !IsBad(fs[1..], later, i) {
        assert !IsBad(fs, seen, i + 1);
      }
      FirstBadAttrIs(fs[1..], later, k - 1);
    }
  }

  // ---------- sorting by order ----------

  function InsertByOrder(f: Prioritized, fs: seq<Prioritized>): seq<Prioritized> {
    if fs == [] || Order(f) <= Order(fs[0]) then [f] + fs else [fs[0]] + InsertByOrder(f, fs[1..])
  }

  function SortByOrder(fs: seq<Prioritized>): seq<Prioritized> {
    if fs == [] then [] else InsertByOrder(fs[0], SortByOrder(fs[1..]))
  }

  // ---------- moving fields ----------

  /** The index of the first field with that name, or the length. */
  function Position(fs: seq<Field>, ident: string): (k: nat)
    ensures k <= |fs|
    ensures k < |fs| ==> fs[k].ident == ident
    ensures forall j :: 0 <= j < k ==> fs[j].ident != ident
  {
    if fs == [] || fs[0].ident == ident then 0 else 1 + Position(fs[1..], ident)
  }

  function RemoveAt(fs: seq<Field>, k: nat): seq<Field>
    requires k < |fs|
  {
    fs[..k] + fs[k + 1..]
  }

  function InsertAt(fs: seq<Field>, k: nat, f: Field): seq<Field> {
    if k >= |fs| then fs + [f] else fs[..k] + [f] + fs[k..]
  }

  /** Takes the field out and puts it back at its order, or at the end. */
  function MoveField(fs: seq<Field>, f: Prioritized): seq<Field> {
    var k := Position(fs, f.ident);
    if k == |fs| then fs else InsertAt(RemoveAt(fs, k), Order(f), f)
  }

  function MoveAll(fs: seq<Field>, ps: seq<Prioritized>): seq<Field> {
    if ps == [] then fs else MoveField(MoveAll(fs, ps[..|ps| - 1]), ps[|ps| - 1])
  }

  function Sorted(fs: seq<Field>): seq<Field> {
    MoveAll(fs, SortByOrder(Prioritize(fs)))
  }

  method GetSortedFields(named: seq<Field>) returns (r: Result<seq<Field>>)
    requires UniqueIdents(named)
    ensures r.Err? <==> BadAttrs(named)
    ensures r.Err? ==> FirstBadAttr(named, {}) == Some(r.error)
    ensures r.Ok? ==> r.value == Sorted(named)
  {
    var prioritized :- CollectOrders(named);
    OrderedFields(named);
    var fields := PlaceFields(named, SortByOrder(prioritized));
    r := Ok(fields);
  }

  /** Moves the fields one after the other; each of them is found. */
  method PlaceFields(named: seq<Field>, ordered: seq<Prioritized>) returns (fields: seq<Field>)
    requires UniqueIdents(named) && Increasing(ordered) && forall f :: f in ordered ==> f in named
    ensures fields == MoveAll(named, ordered)
  {
    fields := named;
    for i := 0 to |ordered|
      invariant fields == MoveAll(named, ordered[..i])
    {
      var f := ordered[i];
      MoveAllKeeps(named, ordered[..i]);
      FoundAfter(fields, named, f);
      assert ordered[..i + 1][..i] == ordered[..i];
      MoveFieldSources(fields, f);
      var idx := Position(fields, f.ident);
      fields := RemoveAt(fields, idx);
      if Order(f) >= |fields| {
        fields := fields + [f];
      } else {
        fields := fields[..Order(f)] + [f] + fields[Order(f)..];
      }
    }
    assert ordered[..|ordered|] == ordered;
  }

  /** The orders that the fields have. */
  ghost predicate HasOrders(fs: seq<Field>, orders: set<nat>) {
    forall o :: o in orders <==> exists j :: 0 <= j < |fs| && HasOrder(fs[j], o)
  }

  predicate HasOrder(f: Field, o: nat) {
    IsPrioritized(f) && f.attr.value.value == o
  }

  lemma NothingCollected()
    ensures Prioritize([]) == [] && !BadAttrs([]) && HasOrders([], {})
  {
  }

  lemma BadAttrsStay(fs: seq<Field>, more: seq<Field>)
    ensures BadAttrs(fs) ==> BadAttrs(fs + more)
  {
    assert forall i :: 0 <= i < |fs| ==> (fs + more)[i] == fs[i];
  }

  /** One more field. */
  lemma CollectStep(fs: seq<Field>, f: Field, orders: set<nat>)
    requires !BadAttrs(fs) && HasOrders(fs, orders)
    ensures BadAttrs(fs + [f]) <==> f.attr.Err? || (IsPrioritized(f) && f.attr.value.value in orders)
    ensures Prioritize(fs + [f]) == Prioritize(fs) + if IsPrioritized(f) then [f] else []
    ensures HasOrders(fs + [f], if IsPrioritized(f) then orders + {f.attr.value.value} else orders)
  {
    hide BadAttrs, Clashes, HasOrders, HasOrder, Prioritize;
    BadAttrsStep(fs, f, orders);
    PrioritizeStep(fs, f);
    HasOrdersStep(fs, f, orders);
  }

  lemma PrioritizeStep(fs: seq<Field>, f: Field)
    ensures Prioritize(fs + [f]) == Prioritize(fs) + if IsPrioritized(f) then [f] else []
  {
    assert (fs + [f])[..|fs|] == fs;
  }

  lemma BadAttrsStep(fs: seq<Field>, f: Field, orders: set<nat>)
    requires !BadAttrs(fs) && HasOrders(fs, orders)
    ensures BadAttrs(fs + [f]) <==> f.attr.Err? || (IsPrioritized(f) && f.attr.value.value in orders)
  {
    var all := fs + [f];
    if f.attr.Err? {
      assert all[|fs|].attr.Err?;
    } else if IsPrioritized(f) && f.attr.value.value in orders {
      var j :| 0 <= j < |fs| && HasOrder(fs[j], f.attr.value.value);
      assert Clashes(all[j], all[|fs|]);
    } else {
      forall i, j | 0 <= i < j < |all| ensures !Clashes(all[i], all[j]) {
        assert all[i] == fs[i];
        if j < |fs| {
          assert !Clashes(fs[i], fs[j]);
        } else if IsPrioritized(f) {
          assert !HasOrder(fs[i], f.attr.value.value);
        }
      }
    }
  }

  lemma HasOrdersStep(fs: seq<Field>, f: Field, orders: set<nat>)
    requires HasOrders(fs, orders)
    ensures HasOrders(fs + [f], if IsPrioritized(f) then orders + {f.attr.value.value} else orders)
  {
    hide HasOrder;
    var all := fs + [f];
    forall o ensures (exists j :: 0 <= j < |all| && HasOrder(all[j], o)) <==> o in orders || HasOrder(f, o) {
      if HasOrder(f, o) {
        assert HasOrder(all[|fs|], o);
      }
      if j :| 0 <= j < |fs| && HasOrder(fs[j], o) {
        assert HasOrder(all[j], o);
      }
    }
    OrderOf(f);
  }

  lemma OrderOf(f: Field)
    ensures forall o :: HasOrder(f, o) <==> IsPrioritized(f) && o == f.attr.value.value
  {
  }

  /** Fails on the first attribute that does not parse or repeats an order. */
  method CollectOrders(named: seq<Field>) returns (r: Result<seq<Prioritized>>)
    ensures r.Err? <==> BadAttrs(named)
    ensures r.Err? ==> FirstBadAttr(named, {}) == Some(r.error)
    ensures r.Ok? ==> r.value == Prioritize(named)
  {
    hide BadAttrs, Prioritize, HasOrders;
    var orders: set<nat> := {};
    var prioritized := [];
    assert named[0..] == named;
    NothingCollected();
    for i := 0 to |named|
      invariant FirstBadAttr(named, {}) == FirstBadAttr(named[i..], orders)
      invariant prioritized == Prioritize(named[..i]) && !BadAttrs(named[..i]) && HasOrders(named[..i], orders)
    {
      var f := named[i];
      assert named[i..][0] == f && named[i..][1..] == named[i + 1..];
      assert named[..i + 1] == named[..i] + [f] && named == named[..i + 1] + named[i + 1..];
      CollectStep(named[..i], f, orders);
      BadAttrsStay(named[..i + 1], named[i + 1..]);
      if f.attr.Err? {
        return Err(f.attr.error);
      }
      if f.attr.value.Some? {
        if f.attr.value.value in orders {
          return Err(BadArgument("encode_order"));
        }
        orders := orders + {f.attr.value.value};
        prioritized := prioritized + [f];
      }
    }
    assert named[..|named|] == named;
    r := Ok(prioritized);
  }

  // ---------- what sorting does ----------

  ghost predicate Increasing(ps: seq<Prioritized>) {
    forall i, j :: 0 <= i < j < |ps| ==> Order(ps[i]) < Order(ps[j])
  }

  ghost predicate DistinctOrders(ps: seq<Prioritized>) {
    forall i, j :: 0 <= i < j < |ps| ==> Order(ps[i]) != Order(ps[j])
  }

  lemma {:induction false} InsertByOrderKeeps(f: Prioritized, fs: seq<Prioritized>)
    ensures multiset(InsertByOrder(f, fs)) == multiset(fs) + multiset{f}
  {
    if fs == [] || Order(f) <= Order(fs[0]) {
    } else {
      InsertByOrderKeeps(f, fs[1..]);
      assert fs == [fs[0]] + fs[1..];
    }
  }

  lemma {:induction false} SortKeeps(fs: seq<Prioritized>)
    ensures multiset(SortByOrder(fs)) == multiset(fs)
  {
    if fs != [] {
      SortKeeps(fs[1..]);
      InsertByOrderKeeps(fs[0], SortByOrder(fs[1..]));
      assert fs == [fs[0]] + fs[1..];
    }
  }

  lemma IncreasingCons(f: Prioritized, fs: seq<Prioritized>)
    requires Increasing(fs) && forall g :: g in fs ==> Order(f) < Order(g)
    ensures Increasing([f] + fs)
  {
  }

  lemma FirstIsLeast(fs: seq<Prioritized>)
    requires Increasing(fs) && fs != []
    ensures Increasing(fs[1..]) && forall g :: g in fs[1..] ==> Order(fs[0]) < Order(g)
  {
  }

  lemma {:induction false} InsertIncreases(f: Prioritized, fs: seq<Prioritized>)
    requires Increasing(fs) && forall g :: g in fs ==> Order(g) != Order(f)
    ensures Increasing(InsertByOrder(f, fs))
  {
    hide Increasing;
    if fs != [] {
      FirstIsLeast(fs);
    }
    if fs == [] || Order(f) <= Order(fs[0]) {
      IncreasingCons(f, fs);
    } else {
      InsertIncreases(f, fs[1..]);
      InsertByOrderKeeps(f, fs[1..]);
      forall g | g in InsertByOrder(f, fs[1..]) ensures Order(fs[0]) < Order(g) {
        assert g in multiset(InsertByOrder(f, fs[1..]));
      }
      IncreasingCons(fs[0], InsertByOrder(f, fs[1..]));
    }
  }

  lemma {:induction false} SortIncreases(fs: seq<Prioritized>)
    requires DistinctOrders(fs)
    ensures Increasing(SortByOrder(fs))
  {
    if fs != [] {
      SortIncreases(fs[1..]);
      SortKeeps(fs[1..]);
      forall g | g in SortByOrder(fs[1..]) ensures Order(g) != Order(fs[0]) {
        assert g in multiset(SortByOrder(fs[1..]));
      }
      InsertIncreases(fs[0], SortByOrder(fs[1..]));
    }
  }

  lemma {:induction false} PrioritizeMembers(fs: seq<Field>)
    ensures forall f :: f in Prioritize(fs) <==> f in fs && IsPrioritized(f)
  {
    if fs != [] {
      PrioritizeMembers(fs[..|fs| - 1]);
      assert fs == fs[..|fs| - 1] + [fs[|fs| - 1]];
    }
  }

  lemma {:induction false} NoBadAttrsDistinct(fs: seq<Field>)
    requires !BadAttrs(fs)
    ensures DistinctOrders(Prioritize(fs))
  {
    if fs != [] {
      var init, last := fs[..|fs| - 1], fs[|fs| - 1];
      assert forall i :: 0 <= i < |init| ==> init[i] == fs[i];
      NoBadAttrsDistinct(init);
      PrioritizeMembers(init);
      if IsPrioritized(last) {
        forall f | f in Prioritize(init) ensures f.attr != last.attr {
          var i :| 0 <= i < |init| && init[i] == f;
        }
        forall i | 0 <= i < |Prioritize(init)| ensures Order(Prioritize(init)[i]) != Order(last) {
          assert Prioritize(init)[i] in Prioritize(init);
        }
      }
    }
  }

  /** The fields are the named ones in another order, the ones without an order in the same. */
  ghost predicate Rearranged(fs: seq<Field>, named: seq<Field>) {
    multiset(fs) == multiset(named) && UniqueIdents(fs) && Plain(fs) == Plain(named)
  }

  ghost predicate PlacedAt(fs: seq<Field>, f: Prioritized) {
    var k := Position(fs, f.ident);
    k < |fs| && fs[k] == f && k <= Order(f)
  }

  ghost predicate InOrder(fs: seq<Field>, ps: seq<Prioritized>) {
    forall i, j :: 0 <= i < j < |ps| ==> Position(fs, ps[i].ident) < Position(fs, ps[j].ident)
  }

  /** The fields of `ps` appear in that order, each at an index at most its order. */
  ghost predicate Placed(fs: seq<Field>, ps: seq<Prioritized>) {
    && (forall i :: 0 <= i < |ps| ==> PlacedAt(fs, ps[i]))
    && InOrder(fs, ps)
  }

  lemma {:induction false} PlainAppend(a: seq<Field>, b: seq<Field>)
    ensures Plain(a + b) == Plain(a) + Plain(b)
  {
    if a == [] {
      assert a + b == b;
    } else {
      assert (a + b)[1..] == a[1..] + b;
      PlainAppend(a[1..], b);
    }
  }

  function Min(a: int, b: int): int {
    if a < b then a else b
  }

  /** Where the field at index `x` came from, when the field at `k` was moved to `m`. */
  function Source(k: nat, m: nat, x: nat): nat {
    if x == m then k
    else
      var rest := if x < m then x else x - 1;
      if rest < k then rest else rest + 1
  }

  /** Where another field goes from index `p`. */
  function Target(k: nat, m: nat, p: nat): nat
    requires p != k
  {
    var rest := if p < k then p else p - 1;
    if rest < m then rest else rest + 1
  }

  lemma SourceInRange(k: nat, m: nat, x: nat, n: nat)
    requires k < n && m < n && x < n
    ensures Source(k, m, x) < n
  {
  }

  lemma TargetIsInverse(k: nat, m: nat, p: nat, n: nat)
    requires k < n && m < n && p < n && p != k
    ensures Target(k, m, p) < n && Target(k, m, p) != m && Source(k, m, Target(k, m, p)) == p
  {
  }

  lemma PositionIsIndex(fs: seq<Field>, k: nat)
    requires UniqueIdents(fs) && k < |fs|
    ensures Position(fs, fs[k].ident) == k
  {
  }

  lemma RemoveIndices(fs: seq<Field>, k: nat)
    requires k < |fs|
    ensures |RemoveAt(fs, k)| == |fs| - 1
    ensures forall y :: 0 <= y < |fs| - 1 ==> RemoveAt(fs, k)[y] == fs[if y < k then y else y + 1]
  {
  }

  lemma InsertIndices(fs: seq<Field>, o: nat, f: Field)
    ensures var m, r := Min(o, |fs|), InsertAt(fs, o, f);
            && |r| == |fs| + 1 && r[m] == f
            && forall x :: 0 <= x < |r| && x != m ==> r[x] == fs[if x < m then x else x - 1]
  {
  }

  lemma MoveSource(fs: seq<Field>, k: nat, o: nat, x: nat)
    requires k < |fs| && x < |fs|
    ensures var m, r := Min(o, |fs| - 1), InsertAt(RemoveAt(fs, k), o, fs[k]);
            |r| == |fs| && Source(k, m, x) < |fs| && r[x] == fs[Source(k, m, x)]
  {
    var m, rest := Min(o, |fs| - 1), RemoveAt(fs, k);
    SourceInRange(k, m, x, |fs|);
    RemoveIndices(fs, k);
    InsertIndices(rest, o, fs[k]);
    hide RemoveAt, InsertAt;
    if x != m {
      var y := if x < m then x else x - 1;
      assert InsertAt(rest, o, fs[k])[x] == rest[y];
    }
  }

  lemma FoundAtPosition(fs: seq<Field>, f: Field)
    requires UniqueIdents(fs) && f in fs
    ensures Position(fs, f.ident) < |fs| && fs[Position(fs, f.ident)] == f
  {
    var i :| 0 <= i < |fs| && fs[i] == f;
    PositionIsIndex(fs, i);
  }

  lemma MoveFieldSources(fs: seq<Field>, f: Prioritized)
    requires UniqueIdents(fs) && f in fs
    ensures var k, m, moved := Position(fs, f.ident), Min(Order(f), |fs| - 1), MoveField(fs, f);
            && k < |fs| && fs[k] == f && |moved| == |fs|
            && forall x :: 0 <= x < |fs| ==> Source(k, m, x) < |fs| && moved[x] == fs[Source(k, m, x)]
  {
    FoundAtPosition(fs, f);
    var k, m, moved := Position(fs, f.ident), Min(Order(f), |fs| - 1), MoveField(fs, f);
    hide Position, RemoveAt, InsertAt, Source, UniqueIdents;
    MoveSource(fs, k, Order(f), 0);
    forall x | 0 <= x < |fs| ensures Source(k, m, x) < |fs| && moved[x] == fs[Source(k, m, x)] {
      MoveSource(fs, k, Order(f), x);
    }
  }

  /** The same for one index. */
  lemma MovedFrom(fs: seq<Field>, f: Prioritized, x: nat)
    requires UniqueIdents(fs) && f in fs && x < |fs|
    ensures var k, m, moved := Position(fs, f.ident), Min(Order(f), |fs| - 1), MoveField(fs, f);
            && k < |fs| && fs[k] == f && |moved| == |fs|
            && Source(k, m, x) < |fs| && moved[x] == fs[Source(k, m, x)]
  {
    MoveFieldSources(fs, f);
  }

  lemma MoveFieldUnique(fs: seq<Field>, f: Prioritized)
    requires UniqueIdents(fs) && f in fs
    ensures UniqueIdents(MoveField(fs, f))
  {
    MoveFieldSources(fs, f);
    var k, m, moved := Position(fs, f.ident), Min(Order(f), |fs| - 1), MoveField(fs, f);
    hide Position, MoveField, Source;
    forall x, y | 0 <= x < y < |moved| ensures moved[x].ident != moved[y].ident {
      SourcesDiffer(k, m, x, y);
    }
  }

  lemma SourcesDiffer(k: nat, m: nat, x: nat, y: nat)
    requires x != y
    ensures Source(k, m, x) != Source(k, m, y)
  {
  }

  lemma InsertKeeps(fs: seq<Field>, o: nat, f: Prioritized)
    ensures multiset(InsertAt(fs, o, f)) == multiset(fs) + multiset{f}
    ensures Plain(InsertAt(fs, o, f)) == Plain(fs)
  {
    assert Plain([f]) == [];
    if o >= |fs| {
      PlainAppend(fs, [f]);
    } else {
      assert fs == fs[..o] + fs[o..];
      PlainAppend(fs[..o], fs[o..]);
      PlainAppend(fs[..o] + [f], fs[o..]);
      PlainAppend(fs[..o], [f]);
    }
  }

  lemma MoveFieldKeeps(fs: seq<Field>, f: Prioritized)
    requires UniqueIdents(fs) && f in fs
    ensures multiset(MoveField(fs, f)) == multiset(fs)
    ensures Plain(MoveField(fs, f)) == Plain(fs)
  {
    MoveFieldSources(fs, f);
    var k := Position(fs, f.ident);
    InsertKeeps(RemoveAt(fs, k), Order(f), f);
    InsertKeeps(RemoveAt(fs, k), k, f);
    PutBack(fs, k);
  }

  lemma PutBack(fs: seq<Field>, k: nat)
    requires k < |fs|
    ensures InsertAt(RemoveAt(fs, k), k, fs[k]) == fs
  {
    RemoveIndices(fs, k);
    InsertIndices(RemoveAt(fs, k), k, fs[k]);
  }

  /** Where another field is after a move. */
  lemma MovedIndex(fs: seq<Field>, f: Prioritized, g: Field)
    requires UniqueIdents(fs) && f in fs && g in fs && g != f
    ensures var k, p, m := Position(fs, f.ident), Position(fs, g.ident), Min(Order(f), |fs| - 1);
            var moved := MoveField(fs, f);
            && p != k && Position(moved, g.ident) == Target(k, m, p) < |moved| && moved[Target(k, m, p)] == g
  {
    hide MoveField, UniqueIdents, Position, Source, Target;
    FoundAtPosition(fs, f);
    FoundAtPosition(fs, g);
    MoveFieldUnique(fs, f);
    var k, p, m := Position(fs, f.ident), Position(fs, g.ident), Min(Order(f), |fs| - 1);
    TargetIsInverse(k, m, p, |fs|);
    MovedFrom(fs, f, Target(k, m, p));
    PositionIsIndex(MoveField(fs, f), Target(k, m, p));
  }

  /** A move keeps the order of the other fields. */
  lemma MoveKeepsOrder(fs: seq<Field>, f: Prioritized, a: Field, b: Field)
    requires UniqueIdents(fs) && f in fs && a in fs && b in fs && a != f && b != f
    ensures Position(fs, a.ident) < Position(fs, b.ident) <==>
            Position(MoveField(fs, f), a.ident) < Position(MoveField(fs, f), b.ident)
  {
    hide MoveField, Position;
    MovedIndex(fs, f, a);
    MovedIndex(fs, f, b);
  }

  /** Moving a field to its order shifts a field of lower order by at most one place, to the
      front, and passes it. */
  lemma {:induction false} MovePasses(fs: seq<Field>, f: Prioritized, g: Prioritized)
    requires UniqueIdents(fs) && f in fs && PlacedAt(fs, g) && Order(g) < Order(f)
    ensures var k, p, moved := Position(fs, f.ident), Position(fs, g.ident), MoveField(fs, f);
            && p != k && PlacedAt(moved, g)
            && Position(moved, g.ident) == (if p < k then p else p - 1) < Min(Order(f), |fs| - 1)
  {
    FoundAtPosition(fs, f);
    MovedIndex(fs, f, g);
  }

  /** A moved field ends at its order, or last. */
  lemma MoveLands(fs: seq<Field>, f: Prioritized)
    requires UniqueIdents(fs) && f in fs
    ensures var m, moved := Min(Order(f), |fs| - 1), MoveField(fs, f);
            0 <= m < |moved| && moved[m] == f && Position(moved, f.ident) == m
  {
    MoveFieldSources(fs, f);
    MoveFieldUnique(fs, f);
    PositionIsIndex(MoveField(fs, f), Min(Order(f), |fs| - 1));
  }

  /** A field moved to its order passes none of the fields with lower orders. */
  lemma {:induction false} MovePlaces(fs: seq<Field>, done: seq<Prioritized>, f: Prioritized)
    requires UniqueIdents(fs) && f in fs && Placed(fs, done)
    requires forall i :: 0 <= i < |done| ==> Order(done[i]) < Order(f)
    ensures Placed(MoveField(fs, f), done + [f])
  {
    hide MoveField, Position, UniqueIdents;
    var k, moved := Position(fs, f.ident), MoveField(fs, f);
    MoveLands(fs, f);
    forall i | 0 <= i < |done|
      ensures var p := Position(fs, done[i].ident);
              p != k && PlacedAt(moved, done[i])
              && Position(moved, done[i].ident) == (if p < k then p else p - 1) < Position(moved, f.ident)
    {
      MovePasses(fs, f, done[i]);
    }
    assert InOrder(moved, done);
  }

  lemma {:induction false} MoveKeeps(fs: seq<Field>, named: seq<Field>, f: Prioritized)
    requires Rearranged(fs, named) && f in fs
    ensures Rearranged(MoveField(fs, f), named)
  {
    MoveFieldUnique(fs, f);
    MoveFieldKeeps(fs, f);
  }

  lemma SameLength(a: seq<Field>, b: seq<Field>)
    requires multiset(a) == multiset(b)
    ensures |a| == |b|
  {
    assert |multiset(a)| == |a| && |multiset(b)| == |b|;
  }

  lemma {:induction false} MoveAllKeeps(named: seq<Field>, ps: seq<Prioritized>)
    requires UniqueIdents(named) && forall f :: f in ps ==> f in named
    ensures Rearranged(MoveAll(named, ps), named)
    ensures forall f :: f in ps ==> f in MoveAll(named, ps)
  {
    if ps != [] {
      MoveAllKeeps(named, ps[..|ps| - 1]);
      var fs, f := MoveAll(named, ps[..|ps| - 1]), ps[|ps| - 1];
      FoundAfter(fs, named, f);
      MoveKeeps(fs, named, f);
    }
    forall f | f in ps ensures f in MoveAll(named, ps) {
      FoundAfter(MoveAll(named, ps), named, f);
    }
  }

  lemma FoundAfter(fs: seq<Field>, named: seq<Field>, f: Field)
    requires multiset(fs) == multiset(named)
    ensures f in fs <==> f in named
  {
    assert f in multiset(fs) <==> f in multiset(named);
  }

  lemma {:induction false} MoveAllPlaces(named: seq<Field>, ps: seq<Prioritized>)
    requires UniqueIdents(named) && Increasing(ps) && forall f :: f in ps ==> f in named
    ensures Placed(MoveAll(named, ps), ps)
  {
    if ps != [] {
      var init, f := ps[..|ps| - 1], ps[|ps| - 1];
      MoveAllPlaces(named, init);
      MoveAllKeeps(named, init);
      FoundAfter(MoveAll(named, init), named, f);
      MovePlaces(MoveAll(named, init), init, f);
      assert init + [f] == ps;
    }
  }

  lemma {:induction false} MoveAllLast(named: seq<Field>, ps: seq<Prioritized>)
    requires UniqueIdents(named) && (forall f :: f in ps ==> f in named) && ps != []
    ensures Position(MoveAll(named, ps), ps[|ps| - 1].ident) == Min(Order(ps[|ps| - 1]), |named| - 1)
  {
    var init, f := ps[..|ps| - 1], ps[|ps| - 1];
    MoveAllKeeps(named, init);
    FoundAfter(MoveAll(named, init), named, f);
    SameLength(MoveAll(named, init), named);
    MoveLands(MoveAll(named, init), f);
  }

  /** On fields with distinct orders, sorting permutes the fields, keeps the ones without an order
      in their order, puts the others in increasing order, each at an index at most its order, and
      the one with the largest order exactly at it, or last. */
  lemma {:induction false} SortedPlaces(named: seq<Field>)
    requires UniqueIdents(named) && !BadAttrs(named)
    ensures var ps := SortByOrder(Prioritize(named));
            && Increasing(ps) && multiset(ps) == multiset(Prioritize(named))
            && Rearranged(Sorted(named), named) && Placed(Sorted(named), ps)
            && (ps != [] ==> Position(Sorted(named), ps[|ps| - 1].ident) == Min(Order(ps[|ps| - 1]), |named| - 1))
  {
    var ps := SortByOrder(Prioritize(named));
    OrderedFields(named);
    MoveAllKeeps(named, ps);
    MoveAllPlaces(named, ps);
    if ps != [] {
      MoveAllLast(named, ps);
    }
  }

  lemma {:induction false} OrderedFields(named: seq<Field>)
    requires !BadAttrs(named)
    ensures var ps := SortByOrder(Prioritize(named));
            Increasing(ps) && multiset(ps) == multiset(Prioritize(named)) && forall f :: f in ps ==> f in named
  {
    var ps := SortByOrder(Prioritize(named));
    NoBadAttrsDistinct(named);
    SortKeeps(Prioritize(named));
    SortIncreases(Prioritize(named));
    PrioritizeMembers(named);
    forall f | f in ps ensures f in named {
      assert f in multiset(ps);
    }
  }

  // ---------- the exact place of every field with an order ----------

  /** How many of the fields `later` stand in front of `g`. */
  ghost function CountInFront(fs: seq<Field>, later: seq<Prioritized>, g: Prioritized): nat {
    if later == [] then 0
    else
      var last := later[|later| - 1];
      CountInFront(fs, later[..|later| - 1], g)
      + if Position(fs, last.ident) < Position(fs, g.ident) then 1 else 0
  }

  lemma {:induction false} MoveAllAppend(fs: seq<Field>, a: seq<Prioritized>, b: seq<Prioritized>)
    ensures MoveAll(fs, a + b) == MoveAll(MoveAll(fs, a), b)
  {
    if b == [] {
      assert a + b == a;
    } else {
      assert (a + b)[..|a + b| - 1] == a + b[..|b| - 1];
      MoveAllAppend(fs, a, b[..|b| - 1]);
    }
  }

  /** Moving other fields keeps the order of two fields. */
  lemma {:induction false} MoveAllKeepsOrder(fs: seq<Field>, ps: seq<Prioritized>, a: Field, b: Field)
    requires UniqueIdents(fs) && (forall f :: f in ps ==> f in fs) && a in fs && b in fs && a !in ps && b !in ps
    ensures Position(fs, a.ident) < Position(fs, b.ident) <==>
            Position(MoveAll(fs, ps), a.ident) < Position(MoveAll(fs, ps), b.ident)
  {
    if ps != [] {
      var init, f := ps[..|ps| - 1], ps[|ps| - 1];
      MoveAllKeepsOrder(fs, init, a, b);
      MoveAllKeeps(fs, init);
      FoundAfter(MoveAll(fs, init), fs, f);
      FoundAfter(MoveAll(fs, init), fs, a);
      FoundAfter(MoveAll(fs, init), fs, b);
      MoveKeepsOrder(MoveAll(fs, init), f, a, b);
    }
  }

  /** Each field of higher order that is moved from in front of `g` shifts it one place. */
  lemma {:induction false} IndexAfterLater(fs: seq<Field>, later: seq<Prioritized>, g: Prioritized)
    requires UniqueIdents(fs) && PlacedAt(fs, g) && Increasing(later)
    requires forall f :: f in later ==> f in fs && Order(g) < Order(f)
    ensures var moved := MoveAll(fs, later);
            PlacedAt(moved, g) && Position(moved, g.ident) == Position(fs, g.ident) - CountInFront(fs, later, g)
  {
    if later != [] {
      var init, f := later[..|later| - 1], later[|later| - 1];
      var before := MoveAll(fs, init);
      IndexAfterLater(fs, init, g);
      MoveAllKeeps(fs, init);
      FoundAfter(before, fs, f);
      MoveAllKeepsOrder(fs, init, f, g);
      MovePasses(before, f, g);
    }
  }

  lemma IndexOfLast(named: seq<Field>, upTo: seq<Prioritized>, later: seq<Prioritized>)
    requires UniqueIdents(named) && upTo != [] && Increasing(upTo + later)
    requires forall f :: f in upTo + later ==> f in named
    ensures var g := upTo[|upTo| - 1];
            Position(MoveAll(MoveAll(named, upTo), later), g.ident)
            == Min(Order(g), |named| - 1) - CountInFront(MoveAll(named, upTo), later, g)
  {
    var fs, g, all := MoveAll(named, upTo), upTo[|upTo| - 1], upTo + later;
    assert Increasing(upTo) by {
      assert forall i :: 0 <= i < |upTo| ==> all[i] == upTo[i];
    }
    assert Increasing(later) by {
      assert forall i :: 0 <= i < |later| ==> all[|upTo| + i] == later[i];
    }
    forall f | f in later ensures f in named && Order(g) < Order(f) {
      var i :| 0 <= i < |later| && later[i] == f;
      assert all[|upTo| + i] == f && all[|upTo| - 1] == g;
    }
    hide MoveAll, CountInFront, Position, UniqueIdents, Increasing;
    MoveAllKeeps(named, upTo);
    MoveAllLast(named, upTo);
    MoveAllPlaces(named, upTo);
    forall f | f in later ensures f in fs {
      FoundAfter(fs, named, f);
    }
    IndexAfterLater(fs, later, g);
  }

  /** A field with an order ends at its order, or last, less one place for every field of higher
      order that stands in front of it once it has been moved. */
  lemma {:induction false} SortedIndex(named: seq<Field>, i: nat)
    requires UniqueIdents(named) && !BadAttrs(named)
    requires i < |SortByOrder(Prioritize(named))|
    ensures var ps := SortByOrder(Prioritize(named));
            Position(Sorted(named), ps[i].ident)
            == Min(Order(ps[i]), |named| - 1) - CountInFront(MoveAll(named, ps[..i + 1]), ps[i + 1..], ps[i])
  {
    OrderedFields(named);
    hide MoveAll, CountInFront, Position, SortByOrder, Prioritize, UniqueIdents, BadAttrs, Increasing;
    var ps := SortByOrder(Prioritize(named));
    assert ps == ps[..i + 1] + ps[i + 1..];
    IndexOfLast(named, ps[..i + 1], ps[i + 1..]);
    MoveAllAppend(named, ps[..i + 1], ps[i + 1..]);
  }

  /** A strictly increasing run of indices, each at most its rank, is the run of ranks. */
  lemma {:induction false} PlacedAtRank(fs: seq<Field>, ps: seq<Prioritized>, i: nat)
    requires Placed(fs, ps) && i < |ps| && forall j :: 0 <= j <= i ==> Order(ps[j]) == j
    ensures fs[Position(fs, ps[i].ident)] == ps[i] && Position(fs, ps[i].ident) == i
  {
    if i > 0 {
      PlacedAtRank(fs, ps, i - 1);
      assert Position(fs, ps[i - 1].ident) < Position(fs, ps[i].ident);
    }
  }

  /** When the orders are exactly 0 to k - 1, the fields that have them fill the first k places. */
  lemma SortedFillsFront(named: seq<Field>)
    requires UniqueIdents(named) && !BadAttrs(named)
    requires var ps := SortByOrder(Prioritize(named)); forall i :: 0 <= i < |ps| ==> Order(ps[i]) == i
    ensures var ps := SortByOrder(Prioritize(named)); ps <= Sorted(named)
  {
    SortedPlaces(named);
    var ps, fs := SortByOrder(Prioritize(named)), Sorted(named);
    forall i | 0 <= i < |ps| ensures i < |fs| && fs[i] == ps[i] {
      PlacedAtRank(fs, ps, i);
    }
    if |ps| > 0 {
      assert |ps| - 1 < |fs|;
    }
  }
}
