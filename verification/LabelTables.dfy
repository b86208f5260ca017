/** The label table: a linked list that is walked for every lookup and update, proved to be a map. */
module LabelTables {
  import opened Wrappers
  import opened Bytes

  datatype Item = Item(name: CString, address: nat)

  predicate DistinctNames(items: seq<Item>) {
    forall i, j :: 0 <= i < j < |items| ==> items[i].name != items[j].name
  }

  /** The map a list of entries stands for. */
  function MapOf(items: seq<Item>): map<CString, nat> {
    if items == [] then map[] else MapOf(items[..|items| - 1])[items[|items| - 1].name := items[|items| - 1].address]
  }

  lemma {:induction false} EntryFound(items: seq<Item>, i: nat)
    requires DistinctNames(items) && i < |items|
    ensures items[i].name in MapOf(items) && MapOf(items)[items[i].name] == items[i].address
  {
    if i < |items| - 1 { EntryFound(items[..|items| - 1], i); }
  }

  lemma {:induction false} NameAbsent(items: seq<Item>, name: CString)
    requires forall i :: 0 <= i < |items| ==> items[i].name != name
    ensures name !in MapOf(items)
  {
    if items != [] { NameAbsent(items[..|items| - 1], name); }
  }

  lemma UpdatesCommute(m: map<CString, nat>, a: CString, x: nat, b: CString, y: nat)
    requires a != b
    ensures m[a := x][b := y] == m[b := y][a := x]
  {
  }

  function Updated(items: seq<Item>, k: nat, address: nat): seq<Item>
    requires k < |items|
  {
    items[k := Item(items[k].name, address)]
  }

  lemma NamesKept(items: seq<Item>, k: nat, address: nat)
    requires DistinctNames(items) && k < |items|
    ensures DistinctNames(Updated(items, k, address))
  {
    forall i, j | 0 <= i < j < |items|
      ensures Updated(items, k, address)[i].name != Updated(items, k, address)[j].name
    {
      assert items[i].name != items[j].name;
    }
  }

  lemma FrontDistinct(items: seq<Item>, n: nat, k: nat)
    requires DistinctNames(items) && k < n == |items| - 1
    ensures DistinctNames(items[..n]) && items[k].name != items[n].name
  {
  }

  /** Changing an entry's address in place updates the map. */
  lemma {:induction false} EntryUpdated(items: seq<Item>, k: nat, address: nat)
    requires DistinctNames(items) && k < |items|
    ensures MapOf(Updated(items, k, address)) == MapOf(items)[items[k].name := address]
  {
    hide DistinctNames;
    var n := |items| - 1;
    var next := Updated(items, k, address);
    if k < n {
      FrontDistinct(items, n, k);
      EntryUpdated(items[..n], k, address);
      assert next[..n] == Updated(items[..n], k, address);
      UpdatesCommute(MapOf(items[..n]), items[n].name, items[n].address, items[k].name, address);
    } else {
      assert next[..n] == items[..n];
      UpdatedTwice(MapOf(items[..n]), items[n].name, items[n].address, address);
    }
  }

  lemma UpdatedTwice(m: map<CString, nat>, a: CString, x: nat, y: nat)
    ensures m[a := x][a := y] == m[a := y]
  {
  }

  /** A new name extends the map. */
  lemma EntryAdded(items: seq<Item>, name: CString, address: nat)
    ensures MapOf(items + [Item(name, address)]) == MapOf(items)[name := address]
  {
    var next := items + [Item(name, address)];
    assert next[..|items|] == items;
  }

  lemma NameAdded(items: seq<Item>, name: CString, address: nat)
    requires DistinctNames(items) && forall j :: 0 <= j < |items| ==> items[j].name != name
    ensures DistinctNames(items + [Item(name, address)])
  {
    var next := items + [Item(name, address)];
    forall i, j | 0 <= i < j < |next| ensures next[i].name != next[j].name {
      assert next[i] == items[i] && (j < |items| ==> next[j] == items[j]);
    }
  }

  class LabelNode {
    const name: CString
    var address: nat
    var next: LabelNode?

    constructor (text: CString, place: nat)
      ensures name == text && address == place && next == null
    {
      name, address, next := text, place, null;
    }
  }

  class LabelTable {
    var head: LabelNode?
    ghost var nodes: seq<LabelNode>
    ghost var items: seq<Item>

    constructor ()
      ensures Valid() && fresh(Repr()) && Map() == map[]
    {
      head := null;
      nodes, items := [], [];
    }

    ghost function Repr(): set<object>
      reads this`nodes
    {
      {this} + (set n: object | n in nodes)
    }

    ghost function NodeAt(i: nat): LabelNode?
      reads this`nodes
    {
      if i < |nodes| then nodes[i] else null
    }

    /** The nodes are the list from its head and hold the entries; no node and no name occurs twice. */
    ghost predicate Valid()
      reads this, nodes
    {
      && head == NodeAt(0)
      && (forall i :: 0 <= i < |nodes| ==> nodes[i].next == NodeAt(i + 1))
      && (forall i, j :: 0 <= i < j < |nodes| ==> nodes[i] != nodes[j])
      && |items| == |nodes| && (forall i :: 0 <= i < |nodes| ==> items[i] == Item(nodes[i].name, nodes[i].address))
      && DistinctNames(items)
    }

    ghost function Map(): map<CString, nat>
      reads this`items
    {
      MapOf(items)
    }

    /** labelInfo_getIfExist. */
    method GetIfExist(name: CString) returns (r: Option<nat>)
      requires Valid()
      ensures r == if name in Map() then Some(Map()[name]) else None
    {
      hide MapOf;
      var item := head;
      ghost var k := 0;
      while item != null
        invariant k <= |nodes| && item == NodeAt(k)
        invariant forall j :: 0 <= j < k ==> items[j].name != name
        decreases |nodes| - k
      {
        if item.name == name {
          EntryFound(items, k);
          return Some(item.address);
        }
        item := item.next;
        k := k + 1;
      }
      NameAbsent(items, name);
      r := None;
    }

    /** labelTable_setOrCreate: overwrites the label's address in place or appends a node. */
    method SetOrCreate(name: CString, address: nat)
      requires Valid()
      modifies this, nodes
      ensures Valid() && fresh(Repr() - old(Repr()))
      ensures Map() == old(Map())[name := address]
    {
      hide MapOf;
      var item := head;
      var last: LabelNode? := null;
      ghost var k := 0;
      while item != null && item.name != name
        invariant k <= |nodes| && item == NodeAt(k) && (k > 0 ==> last == nodes[k - 1]) && (k == 0 ==> last == null)
        invariant forall j :: 0 <= j < k ==> items[j].name != name
        decreases |nodes| - k
        modifies {}
      {
        last := item;
        item := item.next;
        k := k + 1;
      }
      if item != null {
        Overwrite(item, k, address);
        return;
      }
      Append(last, name, address);
    }

    method Overwrite(item: LabelNode, ghost k: nat, address: nat)
      requires Valid() && k < |nodes| && item == nodes[k]
      modifies this`items, item`address
      ensures Valid()
      ensures Map() == old(Map())[item.name := address]
    {
      hide MapOf, DistinctNames, NodeAt;
      EntryUpdated(items, k, address);
      NamesKept(items, k, address);
      item.address := address;
      items := Updated(items, k, address);
      assert forall i :: 0 <= i < |nodes| ==> items[i] == Item(nodes[i].name, nodes[i].address);
    }

    /** A new node behind the last one. */
    method Append(last: LabelNode?, name: CString, address: nat)
      requires Valid() && last == (if nodes == [] then null else nodes[|nodes| - 1])
      requires forall j :: 0 <= j < |items| ==> items[j].name != name
      modifies this, nodes
      ensures Valid() && fresh(Repr() - old(Repr()))
      ensures Map() == old(Map())[name := address]
    {
      hide MapOf, DistinctNames;
      EntryAdded(items, name, address);
      NameAdded(items, name, address);
      var node := new LabelNode(name, address);
      if last == null {
        head := node;
      } else {
        last.next := node;
      }
      nodes := nodes + [node];
      items := items + [Item(name, address)];
    }
  }
}
