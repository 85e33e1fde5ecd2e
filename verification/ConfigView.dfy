/** api/config.go: the item list a user edits and the flat data map that is stored. */
module ConfigView {
  import opened Collections
  import opened Model

  const KV := "kv"
  const OBJECT := "object"
  const FUNCTION := "function"
  const HTTP := "http"
  const TYPE := "type"
  const VALUE := "value"
  const USER_ID := "userID"
  const OBJECT_PREFIX := "_object_"

  type Fields = map<string, string>

  datatype Item = Item(key: string, value: Fields)

  datatype Object = Object(url: string, md5: string, unpack: string, metadata: Option<Fields>)

  /** JSON encoding of objects; decoding fails on anything that is not an encoded obj. */
  datatype Codec = Codec(encode: Object -> string, decode: string -> Option<Object>)

  ghost predicate Inverse(c: Codec) {
    forall o :: c.decode(c.encode(o)) == Some(o)
  }

  function Get(m: Fields, k: string): string {
    if k in m then m[k] else ""
  }

  // ----- validation -----

  predicate HasAll(m: Fields, keys: seq<string>) {
    forall i | 0 <= i < |keys| :: keys[i] in m
  }

  const FUNCTION_KEYS := ["function", "version", "runtime", "handler", "bucket", "object"]

  predicate ItemValid(item: Item) {
    var t := Get(item.value, TYPE);
    && (t == OBJECT ==> "source" in item.value && (item.value["source"] == HTTP ==> "url" in item.value))
    && (t == FUNCTION ==> HasAll(item.value, FUNCTION_KEYS))
    && (t == KV ==> !(OBJECT_PREFIX <= item.key))
  }

  ghost predicate Validated(items: seq<Item>) {
    forall i | 0 <= i < |items| :: ItemValid(items[i])
  }

  method CheckElementsExist(m: Fields, keys: seq<string>) returns (ok: bool)
    ensures ok <==> HasAll(m, keys)
  {
    for i := 0 to |keys|
      invariant forall j | 0 <= j < i :: keys[j] in m
    {
      if keys[i] !in m {
        return false;
      }
    }
    return true;
  }

  method CheckItems(items: seq<Item>) returns (ok: bool)
    ensures ok <==> Validated(items)
  {
    for i := 0 to |items|
      invariant forall j | 0 <= j < i :: ItemValid(items[j])
    {
      var item := items[i];
      if TYPE in item.value {
        if item.value[TYPE] == OBJECT {
          ok := CheckElementsExist(item.value, ["source"]);
          if !ok {
            assert !HasAll(item.value, ["source"]);
            return false;
          }
          assert item.value.Keys >= {["source"][0]};
          if item.value["source"] == HTTP {
            ok := CheckElementsExist(item.value, ["url"]);
          }
          if !ok {
            return false;
          }
          assert item.value["source"] == HTTP ==> ["url"][0] in item.value;
        } else if item.value[TYPE] == FUNCTION {
          ok := CheckElementsExist(item.value, FUNCTION_KEYS);
          if !ok {
            return false;
          }
        } else if item.value[TYPE] == KV {
          if OBJECT_PREFIX <= item.key {
            return false;
          }
        }
      }
    }
    return true;
  }

  // ----- to the stored map -----

  predicate IsObject(item: Item) {
    Get(item.value, TYPE) == OBJECT || Get(item.value, TYPE) == FUNCTION
  }

  /** Items of any other type are dropped. */
  predicate Known(item: Item) {
    Get(item.value, TYPE) == KV || IsObject(item)
  }

  function Slot(item: Item): string {
    if IsObject(item) then OBJECT_PREFIX + item.key else item.key
  }

  function ObjectOf(item: Item, userID: string): Object {
    Object(Get(item.value, "url"), Get(item.value, "md5"), Get(item.value, "unpack"),
           Some(item.value[USER_ID := userID]))
  }

  function Content(c: Codec, userID: string, item: Item): string {
    if IsObject(item) then c.encode(ObjectOf(item, userID)) else Get(item.value, VALUE)
  }

  function Stored(c: Codec, userID: string, items: seq<Item>): Fields {
    if items == [] then map[]
    else
      var rest, last := Stored(c, userID, items[..|items| - 1]), items[|items| - 1];
      if Known(last) then rest[Slot(last) := Content(c, userID, last)] else rest
  }

  method ToConfiguration(c: Codec, userID: string, items: seq<Item>) returns (data: Fields)
    ensures data == Stored(c, userID, items)
  {
    data := map[];
    for i := 0 to |items|
      invariant data == Stored(c, userID, items[..i])
    {
      assert items[..i + 1][..i] == items[..i];
      var v := items[i];
      var t := Get(v.value, TYPE);
      if t == KV {
        data := data[v.key := Get(v.value, VALUE)];
      } else if t == FUNCTION || t == OBJECT {
        var obj := Object(Get(v.value, "url"), Get(v.value, "md5"), Get(v.value, "unpack"),
                             Some(v.value[USER_ID := userID]));
        data := data[OBJECT_PREFIX + v.key := c.encode(obj)];
      }
    }
    assert items[..|items|] == items;
  }

  // ----- back to items -----

  function KvItem(key: string, content: string): Item {
    Item(key, map[TYPE := KV, VALUE := content])
  }

  function Shown(c: Codec, key: string, content: string): Option<Item> {
    if !(OBJECT_PREFIX <= key) then Some(KvItem(key, content))
    else
      var obj := c.decode(content);
      if obj.None? then None
      else if obj.value.metadata.Some?
      then Some(Item(key[|OBJECT_PREFIX|..], obj.value.metadata.value - {USER_ID}))
      else Some(KvItem(key[|OBJECT_PREFIX|..], content))
  }

  ghost predicate Showable(c: Codec, data: Fields) {
    forall k | k in data :: Shown(c, k, data[k]).Some?
  }

  ghost function ShownItems(c: Codec, data: Fields): set<Item>
    requires Showable(c, data)
  {
    set k | k in data :: Shown(c, k, data[k]).value
  }

  /** The map is walked in any order; the first content that does not decode fails the whole view. */
  method ToConfigurationView(c: Codec, data: Fields) returns (items: Option<seq<Item>>)
    ensures items.Some? <==> Showable(c, data)
    ensures items.Some? ==> Elements(items.value) == ShownItems(c, data)
  {
    var keys := data.Keys;
    var list: seq<Item> := [];
    while keys != {}
      invariant keys <= data.Keys
      invariant forall k | k in data && k !in keys :: Shown(c, k, data[k]).Some?
      invariant forall x :: x in list <==> exists k :: k in data && k !in keys && Shown(c, k, data[k]) == Some(x)
      decreases keys
    {
      var k :| k in keys;
      var item := Item(k, map[]);
      var metadata: Option<Fields> := None;
      if OBJECT_PREFIX <= k {
        item := item.(key := k[|OBJECT_PREFIX|..]);
        var obj := c.decode(data[k]);
        if obj.None? {
          return None;
        }
        metadata := obj.value.metadata;
      }
      if metadata.Some? {
        item := item.(value := metadata.value - {USER_ID});
      } else {
        item := item.(value := map[TYPE := KV, VALUE := data[k]]);
      }
      assert Shown(c, k, data[k]) == Some(item);
      list := list + [item];
      keys := keys - {k};
    }
    items := Some(list);
  }

  // ----- round trip -----

  /** What becomes of one item that is stored and shown again. */
  function Normal(item: Item): Item {
    if IsObject(item) then Item(item.key, item.value - {USER_ID}) else KvItem(item.key, Get(item.value, VALUE))
  }

  /** A kv item has its type and value and nothing else; an object item has no user ID of its own. */
  predicate Canonical(item: Item) {
    Known(item) && if IsObject(item) then USER_ID !in item.value else item.value.Keys == {TYPE, VALUE}
  }

  lemma CanonicalIsNormal(item: Item)
    requires Known(item)
    ensures Canonical(item) <==> Normal(item) == item
    ensures Canonical(Normal(item)) && Slot(Normal(item)) == Slot(item)
  {
    if IsObject(item) {
      assert USER_ID !in item.value ==> item.value - {USER_ID} == item.value;
      assert Get(item.value - {USER_ID}, TYPE) == Get(item.value, TYPE);
    } else if item.value.Keys == {TYPE, VALUE} {
      assert item.value == map[TYPE := KV, VALUE := item.value[VALUE]];
    }
  }

  lemma OneItem(c: Codec, userID: string, item: Item)
    requires Inverse(c) && ItemValid(item) && Known(item)
    ensures Shown(c, Slot(item), Content(c, userID, item)) == Some(Normal(item))
  {
    if IsObject(item) {
      var k := Slot(item);
      assert k[..|OBJECT_PREFIX|] == OBJECT_PREFIX && k[|OBJECT_PREFIX|..] == item.key;
      assert c.decode(c.encode(ObjectOf(item, userID))) == Some(ObjectOf(item, userID));
      assert item.value[USER_ID := userID] - {USER_ID} == item.value - {USER_ID};
    }
  }

  ghost predicate Fills(c: Codec, userID: string, item: Item, slot: string, content: string) {
    Known(item) && Slot(item) == slot && content == Content(c, userID, item)
  }

  /** Every slot of the stored map holds the content of some item for that slot, and every known item has one. */
  lemma {:induction false} StoredFrom(c: Codec, userID: string, items: seq<Item>)
    ensures forall i | 0 <= i < |items| && Known(items[i]) :: Slot(items[i]) in Stored(c, userID, items)
    ensures forall k | k in Stored(c, userID, items) :: exists i ::
      0 <= i < |items| && Fills(c, userID, items[i], k, Stored(c, userID, items)[k])
  {
    if items != [] {
      var init, last := items[..|items| - 1], items[|items| - 1];
      StoredFrom(c, userID, init);
      var data, data' := Stored(c, userID, init), Stored(c, userID, items);
      forall k | k in data'
        ensures exists i :: 0 <= i < |items| && Fills(c, userID, items[i], k, data'[k])
      {
        if Known(last) && k == Slot(last) {
          assert Fills(c, userID, items[|items| - 1], k, data'[k]);
        } else {
          var i :| 0 <= i < |init| && Fills(c, userID, init[i], k, data[k]);
          assert items[i] == init[i];
        }
      }
      forall i | 0 <= i < |items| && Known(items[i]) ensures Slot(items[i]) in data' {
        if i < |init| { assert init[i] == items[i]; }
      }
    }
  }

  /** What is shown for a slot is some item for that slot in normal form. */
  lemma ShownFrom(c: Codec, userID: string, items: seq<Item>, k: string) returns (i: nat)
    requires Inverse(c) && Validated(items) && k in Stored(c, userID, items)
    ensures i < |items| && Known(items[i]) && Slot(items[i]) == k
    ensures Shown(c, k, Stored(c, userID, items)[k]) == Some(Normal(items[i]))
  {
    StoredFrom(c, userID, items);
    i :| 0 <= i < |items| && Fills(c, userID, items[i], k, Stored(c, userID, items)[k]);
    OneItem(c, userID, items[i]);
  }

  ghost predicate SlotsAgree(items: seq<Item>) {
    forall i, j | 0 <= i < |items| && 0 <= j < |items| && Slot(items[i]) == Slot(items[j]) :: items[i] == items[j]
  }

  ghost predicate AllCanonical(items: seq<Item>) {
    forall i | 0 <= i < |items| :: Canonical(items[i])
  }

  lemma StoredShowable(c: Codec, userID: string, items: seq<Item>)
    requires Inverse(c) && Validated(items)
    ensures Showable(c, Stored(c, userID, items))
  {
    forall k | k in Stored(c, userID, items) ensures Shown(c, k, Stored(c, userID, items)[k]).Some? {
      var i := ShownFrom(c, userID, items, k);
    }
  }

  /** A validated list of items comes back as the same set exactly when every item is in canonical form
      and no two different items share a slot. */
  lemma RoundTripIff(c: Codec, userID: string, items: seq<Item>)
    requires Inverse(c) && Validated(items)
    ensures Showable(c, Stored(c, userID, items))
    ensures ShownItems(c, Stored(c, userID, items)) == Elements(items) <==> AllCanonical(items) && SlotsAgree(items)
  {
    StoredShowable(c, userID, items);
    var data := Stored(c, userID, items);
    if AllCanonical(items) && SlotsAgree(items) {
      CanonicalRoundTrips(c, userID, items);
    }
    if ShownItems(c, data) == Elements(items) {
      RoundTripCanonical(c, userID, items);
    }
  }

  lemma CanonicalRoundTrips(c: Codec, userID: string, items: seq<Item>)
    requires Inverse(c) && Validated(items) && AllCanonical(items) && SlotsAgree(items)
    requires Showable(c, Stored(c, userID, items))
    ensures ShownItems(c, Stored(c, userID, items)) == Elements(items)
  {
    var data := Stored(c, userID, items);
    StoredFrom(c, userID, items);
    forall x | x in ShownItems(c, data) ensures x in items {
      var k :| k in data && Shown(c, k, data[k]).value == x;
      var i := ShownFrom(c, userID, items, k);
      CanonicalIsNormal(items[i]);
    }
    forall x | x in items ensures x in ShownItems(c, data) {
      var j :| 0 <= j < |items| && items[j] == x;
      var i := ShownFrom(c, userID, items, Slot(x));
      CanonicalIsNormal(items[i]);
      assert items[i] == items[j];
    }
  }

  lemma ShownInSlot(c: Codec, userID: string, items: seq<Item>, x: Item)
    requires Inverse(c) && Validated(items) && Showable(c, Stored(c, userID, items))
    requires x in ShownItems(c, Stored(c, userID, items))
    ensures Canonical(x) && Slot(x) in Stored(c, userID, items)
    ensures Shown(c, Slot(x), Stored(c, userID, items)[Slot(x)]) == Some(x)
  {
    var data := Stored(c, userID, items);
    var k :| k in data && Shown(c, k, data[k]).value == x;
    var i := ShownFrom(c, userID, items, k);
    CanonicalIsNormal(items[i]);
  }

  lemma RoundTripCanonical(c: Codec, userID: string, items: seq<Item>)
    requires Inverse(c) && Validated(items) && Showable(c, Stored(c, userID, items))
    requires ShownItems(c, Stored(c, userID, items)) == Elements(items)
    ensures AllCanonical(items) && SlotsAgree(items)
  {
    forall i | 0 <= i < |items|
      ensures Canonical(items[i]) && Slot(items[i]) in Stored(c, userID, items) &&
              Shown(c, Slot(items[i]), Stored(c, userID, items)[Slot(items[i])]) == Some(items[i])
    {
      assert items[i] in Elements(items);
      ShownInSlot(c, userID, items, items[i]);
    }
  }

  // ----- items that do not come back -----

  lemma SingleShown(c: Codec, key: string, value: string)
    requires !(OBJECT_PREFIX <= key)
    ensures Showable(c, map[key := value]) && ShownItems(c, map[key := value]) == {KvItem(key, value)}
  {
    var data: Fields := map[key := value];
    assert key in data && Shown(c, key, data[key]).value == KvItem(key, value);
  }

  /** Of two values for one key the later one is shown alone. */
  lemma LaterValueWins(c: Codec, userID: string, key: string, value: string, value': string)
    requires !(OBJECT_PREFIX <= key) && value != value'
    ensures var items := [KvItem(key, value), KvItem(key, value')];
            && Validated(items) && Showable(c, Stored(c, userID, items))
            && ShownItems(c, Stored(c, userID, items)) == {KvItem(key, value')} != Elements(items)
  {
    var items := [KvItem(key, value), KvItem(key, value')];
    assert items[..1] == [items[0]] && items[..1][..0] == [];
    assert Stored(c, userID, items[..1]) == map[key := value];
    assert Stored(c, userID, items) == map[key := value'];
    SingleShown(c, key, value');
    assert items[0] in Elements(items) && items[0].value[VALUE] != items[1].value[VALUE];
  }

  /** Whatever else a kv item carries is dropped. */
  lemma ExtraFieldDropped(c: Codec, userID: string, key: string, value: string, field: string, extra: string)
    requires !(OBJECT_PREFIX <= key) && field != TYPE && field != VALUE
    ensures var item := Item(key, KvItem(key, value).value[field := extra]);
            && Validated([item]) && Showable(c, Stored(c, userID, [item]))
            && ShownItems(c, Stored(c, userID, [item])) == {KvItem(key, value)} && item != KvItem(key, value)
  {
    var item := Item(key, KvItem(key, value).value[field := extra]);
    assert [item][..0] == [];
    assert Stored(c, userID, [item]) == map[key := value];
    SingleShown(c, key, value);
    assert field in item.value && field !in KvItem(key, value).value;
  }

  // ----- what is stored for an item -----

  /** The last item for a slot is the one stored in it. */
  lemma {:induction false} LastItemStored(c: Codec, userID: string, items: seq<Item>, i: nat)
    requires i < |items| && Known(items[i])
    requires forall j | i < j < |items| && Known(items[j]) :: Slot(items[j]) != Slot(items[i])
    ensures Slot(items[i]) in Stored(c, userID, items)
    ensures Stored(c, userID, items)[Slot(items[i])] == Content(c, userID, items[i])
  {
    var init := items[..|items| - 1];
    if i < |init| {
      assert init[i] == items[i] && forall j | 0 <= j < |init| :: init[j] == items[j];
      LastItemStored(c, userID, init, i);
    }
  }

  /** What the download of an object needs is stored with it: address, checksum, whether to unpack, and all its
      fields together with the user they belong to. */
  lemma ObjectStored(c: Codec, userID: string, items: seq<Item>, i: nat)
    requires Inverse(c) && i < |items| && IsObject(items[i])
    requires forall j | i < j < |items| && Known(items[j]) :: Slot(items[j]) != Slot(items[i])
    ensures var data, slot, fields := Stored(c, userID, items), OBJECT_PREFIX + items[i].key, items[i].value;
            && slot in data && c.decode(data[slot]).Some?
            && var obj := c.decode(data[slot]).value;
               && obj.url == Get(fields, "url") && obj.md5 == Get(fields, "md5") && obj.unpack == Get(fields, "unpack")
               && obj.metadata.Some? && USER_ID in obj.metadata.value && obj.metadata.value[USER_ID] == userID
               && forall k | k != USER_ID ::
                    (k in obj.metadata.value <==> k in fields) && (k in fields ==> obj.metadata.value[k] == fields[k])
  {
    LastItemStored(c, userID, items, i);
    assert c.decode(c.encode(ObjectOf(items[i], userID))) == Some(ObjectOf(items[i], userID));
  }

  /** An accepted list has what its items need: an object its source, an object behind HTTP its address, a function
      all six of its fields, and no key with the prefix that marks objects. */
  lemma AcceptedItems(items: seq<Item>, i: nat)
    requires Validated(items) && i < |items| && TYPE in items[i].value
    ensures var item := items[i];
            && (item.value[TYPE] == "object" ==> "source" in item.value)
            && (item.value[TYPE] == "object" && item.value["source"] == "http" ==> "url" in item.value)
            && (item.value[TYPE] == "function" ==>
                  {"function", "version", "runtime", "handler", "bucket", "object"} <= item.value.Keys)
            && (item.value[TYPE] == "kv" ==> !("_object_" <= item.key))
  {
    if items[i].value[TYPE] == FUNCTION {
      assert forall k | 0 <= k < 6 :: FUNCTION_KEYS[k] in items[i].value;
      assert FUNCTION_KEYS[0] == "function" && FUNCTION_KEYS[1] == "version" && FUNCTION_KEYS[2] == "runtime";
      assert FUNCTION_KEYS[3] == "handler" && FUNCTION_KEYS[4] == "bucket" && FUNCTION_KEYS[5] == "object";
    }
  }

  /** Content under an object key that decodes to an object without fields of its own is shown as a plain value, and
      content that does not decode fails the view. */
  lemma ForeignObjectShown(c: Codec, key: string, content: string)
    ensures Showable(c, map[OBJECT_PREFIX + key := content]) <==> c.decode(content).Some?
    ensures c.decode(content).Some? && c.decode(content).value.metadata.None? ==>
              ShownItems(c, map[OBJECT_PREFIX + key := content]) == {KvItem(key, content)}
  {
    var slot := OBJECT_PREFIX + key;
    var data: Fields := map[slot := content];
    assert slot[..|OBJECT_PREFIX|] == OBJECT_PREFIX && slot[|OBJECT_PREFIX|..] == key;
    assert slot in data && (Shown(c, slot, data[slot]).Some? <==> c.decode(content).Some?);
    if c.decode(content).Some? && c.decode(content).value.metadata.None? {
      assert Shown(c, slot, data[slot]).value == KvItem(key, content);
    }
  }
}
