/** The key/value map over two caller-supplied flat arrays. */
module FlatMap {
  import opened Common
  import opened Products
  import opened BlockBuffer

  datatype Entry = Entry(key: Block, value: Block)

  const INDEX_NOT_FOUND: int := -1

  // ---------- the map as a list of entries ----------

  /** The position of a key among the first `size` entries, or INDEX_NOT_FOUND. */
  ghost predicate IsIndex(entries: seq<Entry>, key: Block, r: int) {
    if r == INDEX_NOT_FOUND then forall i :: 0 <= i < |entries| ==> entries[i].key != key
    else 0 <= r < |entries| && entries[r].key == key && forall i :: 0 <= i < r ==> entries[i].key != key
  }

  function IndexOf(entries: seq<Entry>, key: Block): (r: int)
    ensures IsIndex(entries, key, r)
  {
    if entries == [] then INDEX_NOT_FOUND
    else
      var m := IndexOf(entries[..|entries| - 1], key);
      if m == INDEX_NOT_FOUND && entries[|entries| - 1].key == key then |entries| - 1 else m
  }

  lemma IndexUnique(entries: seq<Entry>, key: Block, r: int)
    requires IsIndex(entries, key, r)
    ensures r == IndexOf(entries, key)
  {
  }

  /** Insert reports success: the key is bound already or there is room for it. */
  predicate Accepts(entries: seq<Entry>, max: nat, key: Block) {
    IndexOf(entries, key) != INDEX_NOT_FOUND || |entries| != max
  }

  function Inserted(entries: seq<Entry>, max: nat, key: Block, value: Block): (r: seq<Entry>) {
    var index := IndexOf(entries, key);
    if index != INDEX_NOT_FOUND then entries[index := Entry(key, value)]
    else if |entries| != max then entries + [Entry(key, value)]
    else entries
  }

  ghost predicate Distinct(entries: seq<Entry>) {
    forall i, j :: 0 <= i < j < |entries| ==> entries[i].key != entries[j].key
  }

  /** The finite map that a list of entries stands for. */
  ghost function Bindings(entries: seq<Entry>): (m: map<Block, Block>) {
    if entries == [] then map[]
    else Bindings(entries[..|entries| - 1])[entries[|entries| - 1].key := entries[|entries| - 1].value]
  }

  lemma {:induction false} BindingsOf(entries: seq<Entry>, key: Block)
    requires Distinct(entries)
    ensures key in Bindings(entries) <==> IndexOf(entries, key) != INDEX_NOT_FOUND
    ensures key in Bindings(entries) ==> Bindings(entries)[key] == entries[IndexOf(entries, key)].value
    ensures |Bindings(entries)| == |entries|
    decreases |entries|
  {
    if entries != [] {
      var before := entries[..|entries| - 1];
      BindingsOf(before, key);
      BindingsOf(before, entries[|entries| - 1].key);
      assert entries[|entries| - 1].key !in Bindings(before);
    }
  }

  lemma IndexAfter(entries: seq<Entry>, max: nat, key: Block, value: Block, k: Block)
    ensures var after := Inserted(entries, max, key, value);
            IndexOf(after, k) == if k == key && IndexOf(entries, key) == INDEX_NOT_FOUND && |entries| != max
                                 then |entries| else IndexOf(entries, k)
  {
    var after := Inserted(entries, max, key, value);
    var r := if k == key && IndexOf(entries, key) == INDEX_NOT_FOUND && |entries| != max then |entries|
             else IndexOf(entries, k);
    assert IsIndex(after, k, r);
    IndexUnique(after, k, r);
  }

  lemma InsertKeepsDistinct(entries: seq<Entry>, max: nat, key: Block, value: Block)
    requires Distinct(entries) && |entries| <= max
    ensures var after := Inserted(entries, max, key, value); Distinct(after) && |after| <= max
  {
  }

  ghost function Updated(m: map<Block, Block>, accepted: bool, key: Block, value: Block): map<Block, Block> {
    if accepted then m[key := value] else m
  }

  /** One key of the map after an insert. */
  lemma BindingAfter(entries: seq<Entry>, max: nat, key: Block, value: Block, k: Block,
                     after: seq<Entry>, goal: map<Block, Block>)
    requires Distinct(entries) && |entries| <= max && after == Inserted(entries, max, key, value)
    requires goal == Updated(Bindings(entries), Accepts(entries, max, key), key, value)
    ensures k in Bindings(after) <==> k in goal
    ensures k in goal ==> Bindings(after)[k] == goal[k]
  {
    InsertKeepsDistinct(entries, max, key, value);
    BindingsOf(entries, k);
    BindingsOf(after, k);
    IndexAfter(entries, max, key, value, k);
  }

  lemma BindingsAfter(entries: seq<Entry>, max: nat, key: Block, value: Block, after: seq<Entry>, accepted: bool)
    requires Distinct(entries) && |entries| <= max
    requires after == Inserted(entries, max, key, value) && accepted == Accepts(entries, max, key)
    ensures Bindings(after) == Updated(Bindings(entries), accepted, key, value)
  {
    var m, goal := Bindings(after), Updated(Bindings(entries), accepted, key, value);
    forall k: Block ensures (k in m <==> k in goal) && (k in goal ==> m[k] == goal[k]) {
      BindingAfter(entries, max, key, value, k, after, goal);
    }
    assert m == goal;
  }

  /** Insert keeps the keys distinct and changes one binding, or none when a new key meets a full map. */
  lemma InsertIsUpdate(entries: seq<Entry>, max: nat, key: Block, value: Block)
    requires Distinct(entries) && |entries| <= max
    ensures var after := Inserted(entries, max, key, value); Distinct(after) && |after| <= max
    ensures Accepts(entries, max, key) <==> key in Bindings(entries) || |Bindings(entries)| < max
    ensures Bindings(Inserted(entries, max, key, value))
         == Updated(Bindings(entries), Accepts(entries, max, key), key, value)
  {
    InsertKeepsDistinct(entries, max, key, value);
    BindingsOf(entries, key);
    BindingsAfter(entries, max, key, value, Inserted(entries, max, key, value), Accepts(entries, max, key));
  }

  // ---------- runs ----------

  function InsertedAll(max: nat, run: seq<Entry>): (r: seq<Entry>) {
    if run == [] then []
    else Inserted(InsertedAll(max, run[..|run| - 1]), max, run[|run| - 1].key, run[|run| - 1].value)
  }

  /** The different keys of a run, in the order of their first appearance. */
  ghost function FirstKeys(run: seq<Entry>): (r: seq<Block>) {
    if run == [] then []
    else
      var keys := FirstKeys(run[..|run| - 1]);
      if run[|run| - 1].key in keys then keys else keys + [run[|run| - 1].key]
  }

  /** The value of the last insert of a key. */
  ghost function LastValue(run: seq<Entry>, key: Block): (r: Block)
    requires exists i :: 0 <= i < |run| && run[i].key == key
  {
    if run[|run| - 1].key == key then run[|run| - 1].value else LastValue(run[..|run| - 1], key)
  }

  ghost function KeysOf(entries: seq<Entry>): (r: seq<Block>)
    ensures |r| == |entries|
    ensures forall i :: 0 <= i < |entries| ==> r[i] == entries[i].key
  {
    seq(|entries|, i requires 0 <= i < |entries| => entries[i].key)
  }

  lemma KeysAfter(entries: seq<Entry>, max: nat, key: Block, value: Block)
    ensures KeysOf(Inserted(entries, max, key, value))
         == if key in KeysOf(entries) || |entries| == max then KeysOf(entries) else KeysOf(entries) + [key]
  {
    var index := IndexOf(entries, key);
    if index != INDEX_NOT_FOUND {
      assert KeysOf(entries)[index] == key;
    }
  }

  /** After any run of inserts the map holds exactly the first `max` different keys, in order, and each once. */
  lemma {:induction false} RunKeepsFirstKeys(max: nat, run: seq<Entry>)
    ensures var entries, keys := InsertedAll(max, run), FirstKeys(run);
            && KeysOf(entries) == (if |keys| <= max then keys else keys[..max])
            && Distinct(entries)
    decreases |run|
  {
    if run != [] {
      var before, last := run[..|run| - 1], run[|run| - 1];
      var entries, keys := InsertedAll(max, before), FirstKeys(before);
      RunKeepsFirstKeys(max, before);
      KeysAfter(entries, max, last.key, last.value);
      InsertIsUpdate(entries, max, last.key, last.value);
    }
  }

  /** ... and each of them is bound to the value inserted last. */
  lemma {:induction false} RunKeepsLastValue(max: nat, run: seq<Entry>, i: nat)
    requires i < |InsertedAll(max, run)|
    ensures var e := InsertedAll(max, run)[i];
            (exists j :: 0 <= j < |run| && run[j].key == e.key) && e.value == LastValue(run, e.key)
    decreases |run|
  {
    var before, last := run[..|run| - 1], run[|run| - 1];
    var entries, e := InsertedAll(max, before), InsertedAll(max, run)[i];
    RunKeepsFirstKeys(max, before);
    if i < |entries| {
      RunKeepsLastValue(max, before, i);
      assert entries[i].key == e.key;
      var j :| 0 <= j < |before| && before[j].key == e.key;
      assert run[j].key == e.key;
    } else {
      assert run[|run| - 1].key == e.key;
    }
  }

  // ---------- the program ----------

  class Map {
    var keys: array<bv8>
    var values: array<bv8>
    var keySize: int
    var valueSize: int
    var maxMapSize: int
    var currentSize: nat

    /** A struct that has not been initialized yet. */
    constructor ()
      ensures currentSize == maxMapSize == 0
    {
      keys, values := new bv8[0], new bv8[0];
      keySize, valueSize, maxMapSize, currentSize := 0, 0, 0, 0;
    }

    /** The sizes are positive, the arrays hold that many slots, and every position fits an int32_t. */
    ghost predicate Sized()
      reads this
    {
      && 0 < keySize && 0 < valueSize && currentSize <= maxMapSize < INT32_LIMIT && keys != values
      && Times(maxMapSize, keySize) <= keys.Length && Times(maxMapSize, valueSize) <= values.Length
      && Times(maxMapSize, keySize) < INT32_LIMIT && Times(maxMapSize, valueSize) < INT32_LIMIT
    }

    ghost predicate Valid()
      reads this, keys, values
    {
      Sized() && Distinct(Entries())
    }

    ghost function Slots(): (r: seq<Entry>)
      requires Sized()
      reads this, keys, values
      ensures |r| == maxMapSize
    {
      Paired(Blocks(keys[..], maxMapSize, keySize), Blocks(values[..], maxMapSize, valueSize))
    }

    ghost function Entries(): (r: seq<Entry>)
      requires Sized()
      reads this, keys, values
      ensures |r| == currentSize
    {
      Slots()[..currentSize]
    }

    /** The bytes behind the last slots, which no call touches. */
    ghost function Beyond(): (seq<bv8>, seq<bv8>)
      requires Sized()
      reads this, keys, values
    {
      (keys[Times(maxMapSize, keySize)..], values[Times(maxMapSize, valueSize)..])
    }

    /** Any sizes but zero are accepted, negative ones too; positive ones make a map. */
    method Init(keys: array<bv8>, values: array<bv8>, keySize: int, valueSize: int, maxMapSize: int)
      returns (status: bool)
      requires keys != values
      requires 0 < keySize && 0 < valueSize && 0 < maxMapSize ==>
                 && maxMapSize < INT32_LIMIT
                 && Times(maxMapSize, keySize) <= keys.Length && Times(maxMapSize, valueSize) <= values.Length
                 && Times(maxMapSize, keySize) < INT32_LIMIT && Times(maxMapSize, valueSize) < INT32_LIMIT
      modifies this
      ensures status <==> keySize != 0 && valueSize != 0 && maxMapSize != 0
      ensures status && 0 < keySize && 0 < valueSize && 0 < maxMapSize ==> Valid() && Entries() == []
      ensures status ==> this.keySize == keySize && this.valueSize == valueSize && this.maxMapSize == maxMapSize
      ensures status ==> this.keys == keys && this.values == values && currentSize == 0
      ensures !status ==> unchanged(this)
    {
      status := false;
      if keySize != 0 && valueSize != 0 && maxMapSize != 0 {
        this.keys := keys;
        this.values := values;
        this.keySize := keySize;
        this.valueSize := valueSize;
        this.maxMapSize := maxMapSize;
        currentSize := 0;
        status := true;
      }
    }

    method GetIndex(key: Block, size: nat) returns (index: int)
      requires Valid() && |key| == keySize && size == currentSize
      ensures index == IndexOf(Entries(), key)
    {
      index := INDEX_NOT_FOUND;
      ghost var entries := Entries();
      var i := 0;
      while i < size
        invariant 0 <= i <= size && index == INDEX_NOT_FOUND
        invariant forall j :: 0 <= j < i ==> entries[j].key != key
      {
        var block := ReadBlock(keys, i, maxMapSize, keySize);
        assert block == entries[i].key;
        if block == key {
          index := i;
          break;
        }
        i := i + 1;
      }
      IndexUnique(entries, key, index);
    }

    /** The two memcpy calls that store a new entry behind the others. */
    method Append(key: Block, value: Block)
      requires Valid() && currentSize < maxMapSize && |key| == keySize && |value| == valueSize
      requires Distinct(Entries() + [Entry(key, value)])
      modifies this`currentSize, keys, values
      ensures Valid() && Entries() == old(Entries()) + [Entry(key, value)] && Beyond() == old(Beyond())
    {
      WriteBlock(keys, currentSize, maxMapSize, keySize, key);
      WriteBlock(values, currentSize, maxMapSize, valueSize, value);
      currentSize := currentSize + 1;
      assert Entries() == old(Entries()) + [Entry(key, value)];
    }

    /** The memcpy that replaces the value at `index`. */
    method Rebind(index: nat, value: Block)
      requires Valid() && index < currentSize && |value| == valueSize
      modifies values
      ensures Valid() && Entries() == old(Entries())[index := Entry(old(Entries())[index].key, value)]
      ensures Beyond() == old(Beyond())
    {
      WriteBlock(values, index, maxMapSize, valueSize, value);
      assert Entries() == old(Entries())[index := Entry(old(Entries())[index].key, value)];
    }

    method Insert(key: Block, value: Block) returns (status: bool)
      requires Valid() && |key| == keySize && |value| == valueSize
      modifies this`currentSize, keys, values
      ensures Valid()
      ensures status == Accepts(old(Entries()), maxMapSize, key)
      ensures Entries() == Inserted(old(Entries()), maxMapSize, key, value)
      ensures Beyond() == old(Beyond())
    {
      status := false;
      InsertIsUpdate(Entries(), maxMapSize, key, value);
      var index := GetIndex(key, currentSize);
      if index == INDEX_NOT_FOUND {
        if currentSize != maxMapSize {
          Append(key, value);
          status := true;
        }
      } else {
        Rebind(index, value);
        status := true;
      }
    }

    method GetValue(key: Block, value: array<bv8>) returns (status: bool)
      requires Valid() && |key| == keySize && value.Length == valueSize && value != keys && value != values
      modifies value
      ensures Valid() && Entries() == old(Entries())
      ensures status <==> key in Bindings(Entries())
      ensures value[..] == if status then Bindings(Entries())[key] else old(value[..])
    {
      status := false;
      BindingsOf(Entries(), key);
      var index := GetIndex(key, currentSize);
      if index != INDEX_NOT_FOUND {
        CopyBlock(value, values, index, maxMapSize, valueSize);
        status := true;
      }
    }
  }

  function Paired(keys: seq<Block>, values: seq<Block>): (r: seq<Entry>)
    requires |keys| == |values|
    ensures |r| == |keys|
    ensures forall i :: 0 <= i < |r| ==> r[i] == Entry(keys[i], values[i])
  {
    seq(|keys|, i requires 0 <= i < |keys| => Entry(keys[i], values[i]))
  }
}
