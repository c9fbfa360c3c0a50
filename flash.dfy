/**
  Flash messages: short, categorised notifications kept under one reserved key
  of the session's value table until they are read once.
 */
module FlashMessages {
  import opened Sessions

  /** The reserved session key holding the flash table. */
  const FlashKey: Key := "_flash_"

  /** The messages of `category`; a category with no entry reads as the empty
      list, as a missing slice does. */
  function Messages(table: map<string, seq<string>>, category: string): seq<string>
  {
    if category in table then table[category] else []
  }

  /** The reserved key holds something other than nil. */
  predicate HasFlash(values: map<Key, Value>)
  {
    FlashKey in values && values[FlashKey] != Nil
  }

  /** Whatever non-nil value the reserved key holds is a flash table: the
      type assertion made before reading it never fails. */
  predicate WellTyped(values: map<Key, Value>)
  {
    HasFlash(values) ==> values[FlashKey].FlashTable?
  }

  /** The flash table a session holds: the stored one, or the empty table when
      the reserved key is absent or nil. */
  function Pending(values: map<Key, Value>): map<string, seq<string>>
    requires WellTyped(values)
  {
    if HasFlash(values) then values[FlashKey].table else map[]
  }

  /** A flash table with `message` appended to the list of `category`. */
  function Appended(table: map<string, seq<string>>, category: string, message: string): (t: map<string, seq<string>>)
    ensures t.Keys == table.Keys + {category}
    ensures Messages(t, category) == Messages(table, category) + [message]
    ensures forall c :: c != category ==> Messages(t, c) == Messages(table, c)
  {
    table[category := Messages(table, category) + [message]]
  }

  /** The value table after adding one flash message: appended to the stored
      table if there is one, otherwise the reserved key is set to a fresh table
      holding just that message. */
  function AddedFlash(values: map<Key, Value>, category: string, message: string): (r: map<Key, Value>)
    requires WellTyped(values)
    ensures WellTyped(r) && HasFlash(r)
    ensures Pending(r) == Appended(Pending(values), category, message)
    ensures !HasFlash(values) ==> r[FlashKey] == FlashTable(map[category := [message]])
    ensures r - {FlashKey} == values - {FlashKey}
  {
    if HasFlash(values) then
      var table := values[FlashKey].table;
      values[FlashKey := FlashTable(table[category := Messages(table, category) + [message]])]
    else
      assert Messages(map[], category) + [message] == [message];
      values[FlashKey := FlashTable(map[category := [message]])]
  }

  /** The value table after reading the flash messages: the reserved key is
      deleted when it held a table; an absent or nil entry is left as it is. */
  function Consumed(values: map<Key, Value>): (r: map<Key, Value>)
    requires WellTyped(values)
    ensures WellTyped(r) && Pending(r) == map[]
    ensures r - {FlashKey} == values - {FlashKey}
    ensures HasFlash(values) ==> FlashKey !in r
    ensures !HasFlash(values) ==> r == values
  {
    if HasFlash(values) then values - {FlashKey} else values
  }

  /** Adds `message` to the flash messages of `category` in the request's session. */
  method AddFlash(r: Request, category: string, message: string)
    requires r.attached.Some? && WellTyped(Get(r).values)
    modifies Get(r)
    ensures Get(r).values == AddedFlash(old(Get(r).values), category, message)
    ensures Get(r).isNew == old(Get(r).isNew)
  {
    var s := Get(r);
    if FlashKey in s.values && s.values[FlashKey] != Nil {
      var flashMap := s.values[FlashKey].table;
      flashMap := flashMap[category := Messages(flashMap, category) + [message]];
      s.values := s.values[FlashKey := FlashTable(flashMap)];
    } else {
      s.values := s.values[FlashKey := FlashTable(map[category := [message]])];
    }
  }

  /** Returns the request's flash messages and removes them from the session,
      so that they are shown once; the empty table when there are none. */
  method Flash(r: Request) returns (messages: map<string, seq<string>>)
    requires r.attached.Some? && WellTyped(Get(r).values)
    modifies Get(r)
    ensures messages == Pending(old(Get(r).values))
    ensures Get(r).values == Consumed(old(Get(r).values))
    ensures Get(r).isNew == old(Get(r).isNew)
  {
    var s := Get(r);
    if FlashKey in s.values && s.values[FlashKey] != Nil {
      messages := s.values[FlashKey].table;
      s.values := s.values - {FlashKey};
    } else {
      messages := map[];
    }
  }

  /** Reading twice with nothing added in between: the second read finds
      nothing and changes nothing. */
  lemma FlashTwice(values: map<Key, Value>)
    requires WellTyped(values)
    ensures Pending(Consumed(values)) == map[]
    ensures Consumed(Consumed(values)) == Consumed(values)
  {
  }

  /** One call of `AddFlash`: the category to add to and the message. */
  datatype FlashOp = FlashOp(category: string, message: string)

  /** The value table after the additions `ops`, in order. */
  function ApplyAdds(values: map<Key, Value>, ops: seq<FlashOp>): (r: map<Key, Value>)
    requires WellTyped(values)
    ensures WellTyped(r)
    ensures r - {FlashKey} == values - {FlashKey}
    ensures ops != [] ==> HasFlash(r)
    decreases |ops|
  {
    if ops == [] then values
    else
      var last := ops[|ops| - 1];
      AddedFlash(ApplyAdds(values, ops[..|ops| - 1]), last.category, last.message)
  }

  /** The messages `ops` add to `category`, in the order they are added. */
  function MessagesFor(ops: seq<FlashOp>, category: string): seq<string>
    decreases |ops|
  {
    if ops == [] then []
    else
      var last := ops[|ops| - 1];
      MessagesFor(ops[..|ops| - 1], category) + (if last.category == category then [last.message] else [])
  }

  /** The categories `ops` add to. */
  function Categories(ops: seq<FlashOp>): set<string>
    decreases |ops|
  {
    if ops == [] then {} else Categories(ops[..|ops| - 1]) + {ops[|ops| - 1].category}
  }

  /** The flash table made of exactly the additions `ops`. */
  function Collected(ops: seq<FlashOp>): map<string, seq<string>>
  {
    map c | c in Categories(ops) :: MessagesFor(ops, c)
  }

  /** One more addition appends to the table the earlier ones left. */
  lemma AddsLastStep(values: map<Key, Value>, ops: seq<FlashOp>)
    requires WellTyped(values) && ops != []
    ensures Pending(ApplyAdds(values, ops))
         == Appended(Pending(ApplyAdds(values, ops[..|ops| - 1])), ops[|ops| - 1].category, ops[|ops| - 1].message)
  {
  }

  /** Additions keep the categories already pending and add those added to. */
  lemma {:induction false} AddsCategories(values: map<Key, Value>, ops: seq<FlashOp>)
    requires WellTyped(values)
    ensures Pending(ApplyAdds(values, ops)).Keys == Pending(values).Keys + Categories(ops)
    decreases |ops|
  {
    if ops != [] {
      AddsCategories(values, ops[..|ops| - 1]);
      AddsLastStep(values, ops);
    }
  }

  /** Additions append to what is pending: `category` ends with its old
      messages followed by the ones added to it, in order, and gains no
      message added to another category. */
  lemma {:induction false} AddsAppendInOrder(values: map<Key, Value>, ops: seq<FlashOp>, category: string)
    requires WellTyped(values)
    ensures Messages(Pending(ApplyAdds(values, ops)), category) == Messages(Pending(values), category) + MessagesFor(ops, category)
    decreases |ops|
  {
    if ops != [] {
      var prefix := ops[..|ops| - 1];
      var last := ops[|ops| - 1];
      AddsAppendInOrder(values, prefix, category);
      AddsLastStep(values, ops);
      var before := Messages(Pending(ApplyAdds(values, prefix)), category);
      var added := if last.category == category then [last.message] else [];
      assert Messages(Pending(ApplyAdds(values, ops)), category) == before + added;
      assert MessagesFor(ops, category) == MessagesFor(prefix, category) + added;
    }
  }

  /** Round trip: starting with no flash table, adding `ops` and then reading
      the flash messages gives exactly the messages added to each category,
      in the order added, and removes them from the session. */
  lemma {:induction false} AddsThenFlash(values: map<Key, Value>, ops: seq<FlashOp>)
    requires WellTyped(values) && !HasFlash(values)
    ensures Pending(ApplyAdds(values, ops)) == Collected(ops)
    ensures Consumed(ApplyAdds(values, ops)) - {FlashKey} == values - {FlashKey}
    ensures Pending(Consumed(ApplyAdds(values, ops))) == map[]
    ensures ops != [] ==> FlashKey !in Consumed(ApplyAdds(values, ops))
  {
    AddsCategories(values, ops);
    var t := Pending(ApplyAdds(values, ops));
    assert t.Keys == Collected(ops).Keys;
    forall c | c in t
      ensures t[c] == Collected(ops)[c]
    {
      AddsAppendInOrder(values, ops, c);
      assert Messages(t, c) == Messages(map[], c) + MessagesFor(ops, c);
    }
  }

  /** Messages added to two different categories do not interfere: the order
      of the two additions does not matter. */
  lemma AddsToDistinctCategoriesCommute(values: map<Key, Value>, a: FlashOp, b: FlashOp)
    requires WellTyped(values) && a.category != b.category
    ensures AddedFlash(AddedFlash(values, a.category, a.message), b.category, b.message)
         == AddedFlash(AddedFlash(values, b.category, b.message), a.category, a.message)
  {
    var ab := AddedFlash(AddedFlash(values, a.category, a.message), b.category, b.message);
    var ba := AddedFlash(AddedFlash(values, b.category, b.message), a.category, a.message);
    var tab, tba := Pending(ab), Pending(ba);
    forall c | c in tab
      ensures c in tba && tab[c] == tba[c]
    {
      assert Messages(tab, c) == Messages(tba, c);
    }
    assert tab == tba;
    assert ab[FlashKey] == FlashTable(tab) && ba[FlashKey] == FlashTable(tba);
    forall k | k in ab
      ensures k in ba && ab[k] == ba[k]
    {
      if k != FlashKey {
        assert k in ab - {FlashKey};
      }
    }
    forall k | k in ba
      ensures k in ab
    {
      if k != FlashKey {
        assert k in ba - {FlashKey};
      }
    }
  }

  /** After a flash message is added the session is no longer empty, so
      saving it calls the store even when the session is new. */
  lemma AddFlashForcesPersist(isNew: bool, values: map<Key, Value>, category: string, message: string)
    requires WellTyped(values)
    ensures !SkipsPersist(isNew, AddedFlash(values, category, message))
  {
    var r := AddedFlash(values, category, message);
    assert FlashKey in r;
  }
}
