/** The dictionaries of StringEnum fields (core/table.go): every process caches a part of
    one shared store of values and row IDs (server/kvstore.go), which only grows. */
module StringEnum {
  import opened Prelude

  /** A process's two maps. */
  datatype Dict = Dict(forward: map<string, u64>, reverse: map<u64, string>)

  /** No two values have the same row ID; row IDs count up from one. */
  ghost predicate OneToOne(items: map<string, u64>, greatest: u64) {
    && (forall v | v in items :: 1 <= items[v] <= greatest)
    && (forall v, w | v in items && w in items :: items[v] == items[w] ==> v == w)
  }

  /** The two maps undo each other. */
  ghost predicate Inverse(d: Dict) {
    && (forall v | v in d.forward :: d.forward[v] in d.reverse && d.reverse[d.forward[v]] == v)
    && (forall id | id in d.reverse :: d.reverse[id] in d.forward && d.forward[d.reverse[id]] == id)
  }

  ghost predicate Within(part: map<string, u64>, items: map<string, u64>) {
    forall v | v in part :: v in items && items[v] == part[v]
  }

  // ----- The store -----

  /** What fails in the store: opening or loading it, or writing a new value. */
  datatype Faults = Faults(open: bool, write: bool)

  /** PutStringEnum on the server: the row ID of a value, a new one if it has none. */
  function PutStep(items: map<string, u64>, greatest: u64, value: string, f: Faults)
    : (map<string, u64>, u64, Result<u64>)
  {
    if value == "" then (items, greatest, Err("Value must be specified"))
    else if f.open then (items, greatest, Err("open store"))
    else if value in items then (items, greatest, Ok(items[value]))
    else if f.write then (items, greatest, Err("write store"))
    else
      var id := (greatest + 1) % U64;
      (items[value := id], id, Ok(id))
  }

  /** The row ID counter has not come round. */
  predicate HasRoom(items: map<string, u64>, greatest: u64, value: string, f: Faults) {
    value == "" || f.open || value in items || f.write || greatest + 1 < U64
  }

  /** The store grows and stays one-to-one, exactly as long as the 64-bit counter does not
      come round; a put that fails changes nothing. */
  lemma PutKeepsIff(items: map<string, u64>, greatest: u64, value: string, f: Faults)
    requires OneToOne(items, greatest)
    ensures var (items', greatest', r) := PutStep(items, greatest, value, f);
            && (OneToOne(items', greatest') <==> HasRoom(items, greatest, value, f)) && Within(items, items')
            && (r.Ok? <==> value != "" && !f.open && (value in items || !f.write))
            && (r.Ok? ==> value in items' && items'[value] == r.value)
            && (r.Ok? && value !in items && greatest + 1 < U64 ==> r.value == greatest + 1)
            && (r.Err? ==> items' == items && greatest' == greatest)
  {
    var items', greatest' := PutStep(items, greatest, value, f).0, PutStep(items, greatest, value, f).1;
    if !HasRoom(items, greatest, value, f) {
      assert value in items' && items'[value] == 0;
    }
  }

  /** A new row ID is one that no process knows. */
  lemma NewIdUnknown(d: Dict, items: map<string, u64>, greatest: u64)
    requires OneToOne(items, greatest) && Inverse(d) && Within(d.forward, items)
    ensures (greatest + 1) % U64 !in d.reverse
  {
    var id := (greatest + 1) % U64;
    assert id == 0 || id > greatest;
    assert forall x | x in d.reverse :: d.reverse[x] in items && items[d.reverse[x]] == x;
  }

  // ----- A process -----

  /** Adding a value that the store has. */
  function Learn(d: Dict, value: string, id: u64): Dict {
    Dict(d.forward[value := id], d.reverse[id := value])
  }

  lemma LearnKeeps(d: Dict, items: map<string, u64>, greatest: u64, value: string)
    requires Inverse(d) && Within(d.forward, items) && OneToOne(items, greatest) && value in items
    ensures Inverse(Learn(d, value, items[value])) && Within(Learn(d, value, items[value]).forward, items)
  {
  }

  /** `order` lists the values of `items`, each once. */
  ghost predicate Lists(order: seq<string>, items: map<string, u64>) {
    && (forall v :: v in order <==> v in items)
    && (forall i, j | 0 <= i < j < |order| :: order[i] != order[j])
  }

  /** RefreshStringEnumValues on the maps: item by item, in the order the iteration takes,
      the row ID is set in the forward map and the value is overwritten in the reverse. */
  function MergeInOrder(d: Dict, items: map<string, u64>, order: seq<string>): Dict
    requires forall v | v in order :: v in items
  {
    if order == [] then d
    else
      var n := |order| - 1;
      Learn(MergeInOrder(d, items, order[..n]), order[n], items[order[n]])
  }

  /** The forward map gains exactly the items merged. */
  lemma {:induction false} MergedForward(d: Dict, items: map<string, u64>, order: seq<string>)
    requires forall v | v in order :: v in items
    ensures var forward := MergeInOrder(d, items, order).forward;
            && (forall v :: v in forward <==> v in d.forward || v in order)
            && (forall v | v in forward :: forward[v] == if v in order then items[v] else d.forward[v])
  {
    if order != [] {
      var n := |order| - 1;
      MergedForward(d, items, order[..n]);
      assert order == order[..n] + [order[n]];
    }
  }

  lemma {:induction false} MergeKeeps(d: Dict, items: map<string, u64>, order: seq<string>, now: map<string, u64>,
                                      greatest: u64)
    requires Inverse(d) && Within(d.forward, now) && Within(items, now) && OneToOne(now, greatest)
    requires forall v | v in order :: v in items
    ensures Inverse(MergeInOrder(d, items, order)) && Within(MergeInOrder(d, items, order).forward, now)
  {
    hide Inverse, OneToOne, Learn;
    if order != [] {
      var n := |order| - 1;
      MergeKeeps(d, items, order[..n], now, greatest);
      LearnKeeps(MergeInOrder(d, items, order[..n]), now, greatest, order[n]);
    }
  }

  /** Whatever the order, items of a one-to-one store leave the maps undoing each other,
      the forward map has gained exactly the items, and no pair is lost. */
  lemma MergeAll(d: Dict, items: map<string, u64>, order: seq<string>, now: map<string, u64>, greatest: u64)
    requires Inverse(d) && Within(d.forward, now) && Within(items, now) && OneToOne(now, greatest)
             && Lists(order, items)
    ensures var d' := MergeInOrder(d, items, order);
            Inverse(d') && Within(d'.forward, now) && d'.forward == d.forward + items && Within(d.forward, d'.forward)
  {
    hide Inverse, OneToOne, MergeInOrder;
    MergeKeeps(d, items, order, now, greatest);
    MergedForward(d, items, order);
    assert MergeInOrder(d, items, order).forward == d.forward + items;
  }

  class Attribute {
    var valueMap: map<string, u64>
    var reverseMap: map<u64, string>
    var values: seq<(string, u64)>

    ghost function View(): Dict
      reads this
    {
      Dict(valueMap, reverseMap)
    }

    /** The value list has every row ID once. */
    ghost predicate Valid()
      reads this
    {
      && Inverse(View())
      && (forall id :: id in reverseMap <==> exists i | 0 <= i < |values| :: values[i].1 == id)
      && (forall i, j | 0 <= i < j < |values| :: values[i].1 != values[j].1)
    }

    constructor ()
      ensures Valid() && View() == Dict(map[], map[])
    {
      valueMap, reverseMap, values := map[], map[], [];
    }

    /** Add what the store answered to the maps and to the list. */
    method Add(value: string, id: u64)
      requires Valid() && value !in valueMap && id !in reverseMap
      modifies this
      ensures Valid() && View() == Learn(old(View()), value, id)
    {
      values := values + [(value, id)];
      valueMap, reverseMap := valueMap[value := id], reverseMap[id := value];
      assert values[|values| - 1].1 == id;
      assert forall i | 0 <= i < |values| - 1 :: values[i] == old(values)[i];
      forall x ensures x in reverseMap <==> exists i | 0 <= i < |values| :: values[i].1 == x {
        if x in old(reverseMap) {
          var i :| 0 <= i < |old(values)| && old(values)[i].1 == x;
          assert values[i].1 == x;
        }
      }
    }

    /** GetValue: the cached row ID, or the one the store gives. */
    method GetValue(trim: string -> string, invalue: string, store: EnumStore, f: Faults) returns (r: Result<u64>)
      requires Valid() && store.Valid() && Within(valueMap, store.items)
      modifies this, store
      ensures Valid() && Within(valueMap, store.items) && Within(old(store.items), store.items)
      ensures old(HasRoom(store.items, store.greatest, trim(invalue), f)) ==> store.Valid()
      ensures r.Err? <==> trim(invalue) !in old(valueMap) &&
                          (trim(invalue) == "" || f.open || (trim(invalue) !in old(store.items) && f.write))
      ensures r.Err? ==> View() == old(View()) && store.items == old(store.items)
      ensures r.Ok? ==>
              trim(invalue) in valueMap && valueMap[trim(invalue)] == r.value && reverseMap[r.value] == trim(invalue)
    {
      hide OneToOne, Inverse;
      var value := trim(invalue);
      if value in valueMap {
        InverseAt(View(), value);
        return Ok(valueMap[value]);
      }
      if value in store.items {
        NotYetKnown(View(), store.items, store.greatest, value);
      }
      NewIdUnknown(View(), store.items, store.greatest);
      r := store.Put(value, f);
      if r.Err? {
        return;
      }
      Add(value, r.value);
    }

    /** One item of a refresh: set both maps, and list the row ID if it is new. */
    method MergeOne(text: string, rowId: u64, ghost now: map<string, u64>, ghost greatest: u64)
      requires Valid() && Within(valueMap, now) && OneToOne(now, greatest) && text in now && now[text] == rowId
      modifies this
      ensures Valid() && Within(valueMap, now) && View() == Learn(old(View()), text, rowId)
    {
      hide Inverse, OneToOne;
      LearnKeeps(View(), now, greatest, text);
      if rowId in reverseMap {
        AlreadyKnown(View(), now, greatest, text);
        valueMap, reverseMap := valueMap[text := rowId], reverseMap[rowId := text];
        assert reverseMap == old(reverseMap);
      } else {
        NotYetKnown(View(), now, greatest, text);
        Add(text, rowId);
      }
    }

    /** RefreshStringEnumValues, with items read from the store before the lock was taken:
        the store may have grown since. */
    method Merge(items: map<string, u64>, ghost now: map<string, u64>, ghost greatest: u64)
      returns (ghost order: seq<string>)
      requires Valid() && Within(valueMap, now) && Within(items, now) && OneToOne(now, greatest)
      modifies this
      ensures Lists(order, items) && View() == MergeInOrder(old(View()), items, order)
      ensures Valid() && Within(valueMap, now) && valueMap == old(valueMap) + items
    {
      ghost var d := View();
      assert Inverse(d);
      hide Valid, OneToOne, Inverse, MergeInOrder;
      var left := items;
      order := [];
      NothingMerged(d, items);
      while left != map[]
        invariant Valid() && Within(valueMap, now) && Listing(order, left, items)
        invariant View() == MergeInOrder(d, items, order)
        decreases left.Keys
      {
        var text :| text in left;
        MergeOne(text, left[text], now, greatest);
        ListNext(order, left, items, text);
        MergedNext(d, items, order, text);
        order := order + [text];
        left := left - {text};
      }
      MergeAll(d, items, order, now, greatest);
    }

    /** GetValueForID: the cached value, or what a refresh finds; None is a refresh that
        could not read the store. */
    method GetValueForID(id: u64, read: Option<map<string, u64>>, ghost now: map<string, u64>, ghost greatest: u64)
      returns (r: Result<string>)
      requires Valid() && Within(valueMap, now) && (read.Some? ==> Within(read.value, now)) && OneToOne(now, greatest)
      modifies this
      ensures Valid() && Within(valueMap, now)
      ensures r.Ok? ==> r.value in now && now[r.value] == id
      ensures r.Ok? <==> id in old(reverseMap) || (read.Some? && id in read.value.Values)
    {
      if id in reverseMap {
        return Ok(reverseMap[id]);
      }
      if read.None? {
        return Err("cannot open enum");
      }
      var _ := Merge(read.value, now, greatest);
      MergedKnows(old(View()), View(), read.value, id);
      if id in reverseMap {
        return Ok(reverseMap[id]);
      }
      return Err("cannot locate value for rowID");
    }
  }

  class EnumStore {
    var items: map<string, u64>
    var greatest: u64

    ghost predicate Valid()
      reads this
    {
      OneToOne(items, greatest)
    }

    constructor ()
      ensures Valid() && items == map[] && greatest == 0
    {
      items, greatest := map[], 0;
    }

    method Put(value: string, f: Faults) returns (r: Result<u64>)
      requires Valid()
      modifies this
      ensures (items, greatest, r) == PutStep(old(items), old(greatest), value, f)
      ensures Valid() <==> HasRoom(old(items), old(greatest), value, f)
      ensures Within(old(items), items) && (r.Ok? ==> value in items && items[value] == r.value)
    {
      PutKeepsIff(items, greatest, value, f);
      if value == "" {
        return Err("Value must be specified");
      }
      if f.open {
        return Err("open store");
      }
      if value in items {
        return Ok(items[value]);
      }
      greatest := (greatest + 1) % U64;
      if f.write {
        greatest := if greatest == 0 then U64 - 1 else greatest - 1;
        return Err("write store");
      }
      items := items[value := greatest];
      return Ok(greatest);
    }
  }

  /** `order` lists the values of `items` but those in `left`. */
  ghost predicate Listing(order: seq<string>, left: map<string, u64>, items: map<string, u64>) {
    && Within(left, items) && Lists(order, items - left.Keys)
  }

  lemma ListNext(order: seq<string>, left: map<string, u64>, items: map<string, u64>, text: string)
    requires Listing(order, left, items) && text in left
    ensures Listing(order + [text], left - {text}, items)
  {
    assert text !in order;
    assert forall v :: v in order + [text] <==> v in items - (left - {text}).Keys;
  }

  lemma NothingMerged(d: Dict, items: map<string, u64>)
    ensures MergeInOrder(d, items, []) == d && Listing([], items, items)
  {
  }

  lemma MergedNext(d: Dict, items: map<string, u64>, order: seq<string>, text: string)
    requires text in items && forall v | v in order :: v in items
    ensures forall v | v in order + [text] :: v in items
    ensures MergeInOrder(d, items, order + [text]) == Learn(MergeInOrder(d, items, order), text, items[text])
  {
    assert (order + [text])[..|order|] == order;
  }

  lemma NotYetKnown(d: Dict, items: map<string, u64>, greatest: u64, value: string)
    requires Inverse(d) && Within(d.forward, items) && OneToOne(items, greatest) && value in items
    ensures items[value] in d.reverse <==> value in d.forward
  {
    if items[value] in d.reverse {
      assert d.reverse[items[value]] == value;
    }
  }

  lemma InverseAt(d: Dict, value: string)
    requires Inverse(d) && value in d.forward
    ensures d.forward[value] in d.reverse && d.reverse[d.forward[value]] == value
  {
  }

  lemma MergedKnows(before: Dict, d: Dict, items: map<string, u64>, id: u64)
    requires Inverse(before) && Inverse(d) && d.forward == before.forward + items && id !in before.reverse
    ensures id in items.Values <==> id in d.reverse
  {
  }

  lemma AlreadyKnown(d: Dict, items: map<string, u64>, greatest: u64, value: string)
    requires Inverse(d) && Within(d.forward, items) && OneToOne(items, greatest) && value in items
             && items[value] in d.reverse
    ensures value in d.forward && d.forward[value] == items[value] && d.reverse[items[value]] == value
  {
    assert d.reverse[items[value]] == value;
  }

  // ----- Several processes -----

  /** A process between the two halves of a refresh holds the items it has read. */
  datatype Process = Process(dict: Dict, pending: Option<map<string, u64>>)

  datatype State = State(items: map<string, u64>, greatest: u64, processes: map<nat, Process>)

  /** A merge takes the items in some order. */
  datatype Action =
    | Lookup(p: nat, value: string, faults: Faults)
    | ReadItems(p: nat)
    | MergeItems(p: nat, order: seq<string>)

  /** A lookup that would need a new row ID finds room for one. */
  ghost predicate Enabled(trim: string -> string, s: State, a: Action) {
    && a.p in s.processes
    && (a.Lookup? ==> trim(a.value) in s.processes[a.p].dict.forward
                      || HasRoom(s.items, s.greatest, trim(a.value), a.faults))
    && (a.MergeItems? ==> s.processes[a.p].pending.Some? && Lists(a.order, s.processes[a.p].pending.value))
  }

  ghost function Step(trim: string -> string, s: State, a: Action): State
    requires Enabled(trim, s, a)
  {
    var proc := s.processes[a.p];
    match a
    case Lookup(p, value, f) =>
      if trim(value) in proc.dict.forward then s
      else
        var (items, greatest, r) := PutStep(s.items, s.greatest, trim(value), f);
        State(items, greatest,
              if r.Ok? then s.processes[p := proc.(dict := Learn(proc.dict, trim(value), r.value))] else s.processes)
    case ReadItems(p) => s.(processes := s.processes[p := proc.(pending := Some(s.items))])
    case MergeItems(p, order) =>
      s.(processes := s.processes[p := Process(MergeInOrder(proc.dict, proc.pending.value, order), None)])
  }

  /** What a lookup answers. */
  function Answer(trim: string -> string, s: State, a: Action): Result<u64>
    requires a.Lookup? && a.p in s.processes
  {
    var dict, value := s.processes[a.p].dict, trim(a.value);
    if value in dict.forward then Ok(dict.forward[value]) else PutStep(s.items, s.greatest, value, a.faults).2
  }

  ghost predicate Next(trim: string -> string, s: State, a: Action, s': State) {
    Enabled(trim, s, a) && s' == Step(trim, s, a)
  }

  ghost predicate ProcessOk(proc: Process, items: map<string, u64>) {
    && Inverse(proc.dict) && Within(proc.dict.forward, items)
    && (proc.pending.Some? ==> Within(proc.pending.value, items))
  }

  ghost predicate Inv(s: State) {
    OneToOne(s.items, s.greatest) && forall p | p in s.processes :: ProcessOk(s.processes[p], s.items)
  }

  lemma GrownOk(proc: Process, items: map<string, u64>, items': map<string, u64>)
    requires ProcessOk(proc, items) && Within(items, items')
    ensures ProcessOk(proc, items')
  {
  }

  /** No process forgets a pair. */
  ghost predicate Remembers(before: map<nat, Process>, after: map<nat, Process>) {
    forall p | p in before :: p in after && Within(before[p].dict.forward, after[p].dict.forward)
  }

  lemma NextInv(trim: string -> string, s: State, a: Action, s': State)
    requires Inv(s) && Next(trim, s, a, s')
    ensures Inv(s') && Within(s.items, s'.items) && Remembers(s.processes, s'.processes)
  {
    hide ProcessOk, Inverse, OneToOne, Step;
    match a
    case Lookup(_, _, _) => LookupInv(trim, s, a, s');
    case ReadItems(_) => ReadInv(trim, s, a, s');
    case MergeItems(_, _) => MergeInv(trim, s, a, s');
  }

  lemma ReadInv(trim: string -> string, s: State, a: Action, s': State)
    requires Inv(s) && Next(trim, s, a, s') && a.ReadItems?
    ensures Inv(s') && s'.items == s.items && Remembers(s.processes, s'.processes)
  {
    hide OneToOne, Inverse;
    assert ProcessOk(s.processes[a.p], s.items);
  }

  lemma MergeInv(trim: string -> string, s: State, a: Action, s': State)
    requires Inv(s) && Next(trim, s, a, s') && a.MergeItems?
    ensures Inv(s') && s'.items == s.items && Remembers(s.processes, s'.processes)
  {
    hide OneToOne, Inverse, MergeInOrder;
    var proc := s.processes[a.p];
    assert ProcessOk(proc, s.items);
    MergeAll(proc.dict, proc.pending.value, a.order, s.items, s.greatest);
  }

  lemma LookupInv(trim: string -> string, s: State, a: Action, s': State)
    requires Inv(s) && Next(trim, s, a, s') && a.Lookup?
    ensures Inv(s') && Within(s.items, s'.items) && Remembers(s.processes, s'.processes)
  {
    hide ProcessOk, Inverse, OneToOne, PutStep;
    PutKeepsIff(s.items, s.greatest, trim(a.value), a.faults);
    forall p | p in s.processes && s' != s ensures ProcessOk(s.processes[p], s'.items) {
      GrownOk(s.processes[p], s.items, s'.items);
    }
    if s' != s && trim(a.value) in s'.items {
      LearnedOk(s.processes[a.p], s'.items, s'.greatest, trim(a.value));
    }
  }

  lemma LearnedOk(proc: Process, items: map<string, u64>, greatest: u64, value: string)
    requires ProcessOk(proc, items) && OneToOne(items, greatest) && value in items
    ensures ProcessOk(proc.(dict := Learn(proc.dict, value, items[value])), items)
  {
    LearnKeeps(proc.dict, items, greatest, value);
  }

  /** A run, with every state it went through. */
  ghost predicate Trace(trim: string -> string, states: seq<State>, actions: seq<Action>) {
    |states| == |actions| + 1 && forall i | 0 <= i < |actions| :: Next(trim, states[i], actions[i], states[i + 1])
  }

  lemma {:induction false} TraceInv(trim: string -> string, states: seq<State>, actions: seq<Action>, i: nat, j: nat)
    requires Trace(trim, states, actions) && Inv(states[0]) && i <= j < |states|
    ensures Inv(states[i]) && Inv(states[j]) && Within(states[i].items, states[j].items)
    ensures Remembers(states[i].processes, states[j].processes)
    decreases j
  {
    hide Next, Inv;
    if i < j {
      TraceInv(trim, states, actions, i, j - 1);
      NextInv(trim, states[j - 1], actions[j - 1], states[j]);
    } else if j > 0 {
      TraceInv(trim, states, actions, j - 1, j - 1);
      NextInv(trim, states[j - 1], actions[j - 1], states[j]);
    }
  }

  /** In every interleaving of lookups and refreshes by any number of processes, each
      process's maps undo each other and agree with the store. Once a lookup has answered,
      its process keeps the row ID for good, and every process that knows the row ID or
      the value, now or later, knows this pair. */
  lemma LookupThenReverse(trim: string -> string, states: seq<State>, actions: seq<Action>, k: nat, j: nat, q: nat)
    requires Trace(trim, states, actions) && Inv(states[0]) && k < j < |states| && q in states[j].processes
    requires actions[k].Lookup? && actions[k].p in states[k].processes && Answer(trim, states[k], actions[k]).Ok?
    ensures ProcessOk(states[j].processes[q], states[j].items)
    ensures actions[k].p in states[j].processes
    ensures var value, id := trim(actions[k].value), Answer(trim, states[k], actions[k]).value;
            var mine, dict := states[j].processes[actions[k].p].dict, states[j].processes[q].dict;
            && value in mine.forward && mine.forward[value] == id && id in mine.reverse && mine.reverse[id] == value
            && (id in dict.reverse ==> dict.reverse[id] == value)
            && (value in dict.forward ==> dict.forward[value] == id)
            && value in states[j].items && states[j].items[value] == id
  {
    hide Next, Inv, ProcessOk, Answer;
    TraceInv(trim, states, actions, k + 1, j);
    LookupKnows(trim, states[k], actions[k], states[k + 1]);
    PairAgrees(states[k + 1], actions[k].p, states[j], q, trim(actions[k].value));
    KnownBack(states[j], actions[k].p, trim(actions[k].value));
  }

  lemma KnownBack(s: State, p: nat, value: string)
    requires Inv(s) && p in s.processes && value in s.processes[p].dict.forward
    ensures var d := s.processes[p].dict; d.forward[value] in d.reverse && d.reverse[d.forward[value]] == value
  {
    assert ProcessOk(s.processes[p], s.items);
  }

  lemma PairAgrees(s: State, p: nat, s': State, q: nat, value: string)
    requires Inv(s) && Inv(s') && Within(s.items, s'.items) && p in s.processes && q in s'.processes
    ensures ProcessOk(s'.processes[q], s'.items)
    ensures var known, dict := s.processes[p].dict.forward, s'.processes[q].dict;
            value in known ==>
              && (known[value] in dict.reverse ==> dict.reverse[known[value]] == value)
              && (value in dict.forward ==> dict.forward[value] == known[value])
              && value in s'.items && s'.items[value] == known[value]
  {
    assert ProcessOk(s.processes[p], s.items);
    assert ProcessOk(s'.processes[q], s'.items);
  }

  lemma LookupKnows(trim: string -> string, s: State, a: Action, s': State)
    requires Next(trim, s, a, s') && a.Lookup?
    ensures a.p in s.processes && a.p in s'.processes
    ensures var r, known := Answer(trim, s, a), s'.processes[a.p].dict.forward;
            r.Ok? ==> trim(a.value) in known && known[trim(a.value)] == r.value
  {
  }
}
