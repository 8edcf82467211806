/** The device list itself: a linked list of devices, each with a linked list of properties, both
    changed in place. What it holds is a sequence of cells. */
module DeviceList {
  import opened Options
  import opened Hal
  import opened Cells
  import opened Handlers

  class PropertyNode {
    const key: string
    var values: seq<string>
    var next: PropertyNode?
    ghost const owner: DeviceNode

    constructor (key: string, values: seq<string>, next: PropertyNode?, ghost owner: DeviceNode)
      ensures this.key == key && this.values == values && this.next == next && this.owner == owner
    {
      this.key, this.values, this.next, this.owner := key, values, next, owner;
    }

    /** The node reads `p`, belongs to a device, and is followed by `next`. */
    ghost predicate Is(p: Property, next: PropertyNode?, owner: DeviceNode)
      reads this
    {
      key == p.key && values == p.values && this.next == next && this.owner == owner
    }
  }

  ghost function PropertyAfter(s: seq<PropertyNode>, i: int): PropertyNode? {
    if 0 <= i + 1 < |s| then s[i + 1] else null
  }

  ghost predicate Apart<T>(s: seq<T>) {
    forall j, k | 0 <= j < k < |s| :: s[j] != s[k]
  }

  lemma ApartWithout<T>(s: seq<T>, i: nat)
    requires Apart(s) && i < |s|
    ensures Apart(s[..i] + s[i + 1..])
  {
  }

  lemma ApartCons<T>(x: T, s: seq<T>)
    requires Apart(s) && forall i | 0 <= i < |s| :: s[i] != x
    ensures Apart([x] + s)
  {
  }

  lemma AfterDrop(s: seq<PropertyNode>, i: nat, j: nat)
    requires i < |s| && j < |s| - 1
    ensures var d, k := s[..i] + s[i + 1..], if j < i then j else j + 1;
            d[j] == s[k] && PropertyAfter(d, j) == PropertyAfter(s, if j + 1 == i then i else k)
  {
  }

  class DeviceNode {
    const udi: string
    var properties: PropertyNode?
    var next: DeviceNode?
    ghost var props: seq<PropertyNode>

    /** The property list is a chain of nodes of its own and reads `ps`. */
    ghost predicate Shows(ps: seq<Property>)
      reads this, props
    {
      && |props| == |ps|
      && properties == PropertyAfter(props, -1)
      && (forall j {:trigger props[j].Is(ps[j], PropertyAfter(props, j), this)} | 0 <= j < |props| ::
            props[j].Is(ps[j], PropertyAfter(props, j), this))
      && Apart(props)
    }

    lemma At(ps: seq<Property>, j: nat)
      requires Shows(ps) && j < |ps|
      ensures props[j].Is(ps[j], PropertyAfter(props, j), this)
    {
    }

    /** A device keeps showing its properties while neither it nor they change. */
    twostate lemma Unaffected(ps: seq<Property>)
      requires old(Shows(ps)) && unchanged(this)
      requires forall k | 0 <= k < |props| :: props[k].values == old(props[k].values) && props[k].next == old(props[k].next)
      ensures Shows(ps)
    {
      forall j | 0 <= j < |props| ensures props[j].Is(ps[j], PropertyAfter(props, j), this) {
        assert old(props[j].Is(ps[j], PropertyAfter(props, j), this));
      }
    }

    constructor (udi: string)
      ensures this.udi == udi && next == null && props == [] && Shows([])
    {
      this.udi := udi;
      properties, next, props := null, null, [];
    }

    /** Puts a property in front. */
    method Prepend(key: string, values: seq<string>, ghost ps: seq<Property>)
      requires Shows(ps)
      modifies this`properties, this`props
      ensures Shows([Property(key, values)] + ps)
      ensures |props| == |old(props)| + 1 && fresh(props[0]) && props == [props[0]] + old(props)
    {
      var node := new PropertyNode(key, values, properties, this);
      ghost var before := props;
      properties := node;
      props := [node] + props;
      ghost var qs := [Property(key, values)] + ps;
      forall j | 0 <= j < |props| ensures props[j].Is(qs[j], PropertyAfter(props, j), this) {
        if j > 0 {
          assert old(props[j - 1].Is(ps[j - 1], PropertyAfter(props, j - 1), this));
          assert props[j] == before[j - 1] && qs[j] == ps[j - 1];
        }
      }
    }

    /** The walk that looks for a key, with the node in front of the one it finds. */
    method Find(key: string, ghost ps: seq<Property>) returns (previous: PropertyNode?, property: PropertyNode?)
      requires Shows(ps)
      ensures var i := FirstKey(ps, key, 0);
              property == PropertyAfter(props, i - 1) && previous == PropertyAfter(props, i - 2)
    {
      previous, property := null, properties;
      ghost var i := 0;
      while property != null && property.key != key
        invariant i <= |props| && property == PropertyAfter(props, i - 1) && previous == PropertyAfter(props, i - 2)
        invariant forall k | 0 <= k < i :: ps[k].key != key
        decreases |props| - i
      {
        At(ps, i);
        previous, property := property, property.next;
        i := i + 1;
      }
      if i < |ps| { At(ps, i); }
    }

    /** `halevt_device_list_set_property` once the device and the new values are known. */
    method Set(key: string, values: seq<string>, ghost ps: seq<Property>)
      requires Shows(ps)
      modifies this`properties, this`props, props
      ensures Shows(SetKey(ps, key, values))
      ensures forall p | p in props :: p in old(props) || fresh(p)
    {
      var _, property := Find(key, ps);
      if property != null {
        ghost var i := FirstKey(ps, key, 0);
        ghost var qs := SetKey(ps, key, values);
        property.values := values;
        forall j | 0 <= j < |props| ensures props[j].Is(qs[j], PropertyAfter(props, j), this) {
          assert old(props[j].Is(ps[j], PropertyAfter(props, j), this));
        }
      } else {
        Prepend(key, values, ps);
      }
    }

    /** Takes the first property with the key out of the chain. */
    method Drop(key: string, ghost ps: seq<Property>) returns (removed: bool)
      requires Shows(ps)
      modifies this`properties, this`props, props
      ensures Shows(DropKey(ps, key)) && (removed <==> FirstKey(ps, key, 0) < |ps|)
      ensures forall p | p in props :: p in old(props)
    {
      var previous, property := Find(key, ps);
      removed := property != null;
      if property != null {
        Unlink(previous, property, FirstKey(ps, key, 0), ps);
      }
    }

    method Unlink(previous: PropertyNode?, property: PropertyNode, ghost i: nat, ghost ps: seq<Property>)
      requires Shows(ps) && i < |props| && property == props[i] && previous == PropertyAfter(props, i - 2)
      modifies this`properties, this`props, previous
      ensures Shows(ps[..i] + ps[i + 1..]) && props == old(props)[..i] + old(props)[i + 1..]
    {
      ghost var before, qs := props, ps[..i] + ps[i + 1..];
      At(ps, i);
      ApartWithout(before, i);
      if previous == null {
        properties := property.next;
      } else {
        previous.next := property.next;
      }
      props := before[..i] + before[i + 1..];
      forall j | 0 <= j < |props| ensures props[j].Is(qs[j], PropertyAfter(props, j), this) {
        AfterDrop(before, i, j);
        ghost var k := if j < i then j else j + 1;
        assert qs[j] == ps[k];
        assert old(before[k].Is(ps[k], PropertyAfter(before, k), this));
      }
    }
  }

  ghost function DeviceAfter(s: seq<DeviceNode>, i: int): DeviceNode? {
    if 0 <= i + 1 < |s| then s[i + 1] else null
  }

  lemma AfterUnlink(s: seq<DeviceNode>, i: nat, j: nat)
    requires i < |s| && j < |s| - 1
    ensures var d, k := s[..i] + s[i + 1..], if j < i then j else j + 1;
            d[j] == s[k] && DeviceAfter(d, j) == DeviceAfter(s, if j + 1 == i then i else k)
  {
  }

  class DeviceList {
    var root: DeviceNode?
    ghost var nodes: seq<DeviceNode>
    ghost var cells: seq<Cell>
    ghost var repr: set<object>

    /** The node lies in the list's footprint with its properties. */
    static ghost predicate Inside(node: DeviceNode, repr: set<object>)
      reads node
    {
      node in repr && forall p | p in node.props :: p in repr
    }

    /** The node reads `c` and is followed by `next`. */
    static ghost predicate Holds(node: DeviceNode, c: Cell, next: DeviceNode?)
      reads node, node.props
    {
      node.udi == c.udi && node.Shows(c.properties) && node.next == next
    }

    /** The chain of devices is a chain of distinct nodes and reads `cells`. */
    ghost predicate Valid()
      reads this, repr
    {
      && this in repr && |nodes| == |cells|
      && root == DeviceAfter(nodes, -1)
      && (forall i | 0 <= i < |nodes| :: nodes[i] in repr && Inside(nodes[i], repr))
      && (forall i {:trigger Holds(nodes[i], cells[i], DeviceAfter(nodes, i))} | 0 <= i < |nodes| ::
            Inside(nodes[i], repr) && Holds(nodes[i], cells[i], DeviceAfter(nodes, i)))
      && Apart(nodes)
    }

    lemma At(i: nat)
      requires Valid() && i < |nodes|
      ensures Inside(nodes[i], repr) && Holds(nodes[i], cells[i], DeviceAfter(nodes, i))
    {
    }

    constructor ()
      ensures Valid() && fresh(repr) && cells == []
    {
      root, nodes, cells := null, [], [];
      repr := {this};
    }

    /** `halevt_device_list_find_device`, with the node in front of the one it finds. */
    method FindDevice(udi: string) returns (previous: DeviceNode?, device: DeviceNode?)
      requires Valid()
      ensures var i := FirstUdi(cells, udi, 0);
              device == DeviceAfter(nodes, i - 1) && previous == DeviceAfter(nodes, i - 2)
    {
      previous, device := null, root;
      ghost var i := 0;
      while device != null && device.udi != udi
        invariant i <= |nodes| && device == DeviceAfter(nodes, i - 1) && previous == DeviceAfter(nodes, i - 2)
        invariant forall k | 0 <= k < i :: cells[k].udi != udi
        decreases |nodes| - i
      {
        At(i);
        previous, device := device, device.next;
        i := i + 1;
      }
      if i < |cells| { At(i); }
    }

    /** A device with the properties of a set, not linked yet. */
    static method NewDevice(udi: string, entries: seq<Entry>) returns (device: DeviceNode)
      ensures fresh(device) && device.udi == udi && device.next == null && device.Shows(Load(entries))
      ensures forall p | p in device.props :: fresh(p)
    {
      device := new DeviceNode(udi);
      for k := 0 to |entries|
        invariant fresh(device) && device.udi == udi && device.next == null && device.Shows(Load(entries[..k]))
        invariant forall p | p in device.props :: fresh(p)
      {
        device.Prepend(entries[k].key, Format(entries[k].value), Load(entries[..k]));
        LoadNext(entries, k);
      }
      assert entries[..|entries|] == entries;
    }

    /** `halevt_device_list_add_device`: links the device in front. */
    method AddDevice(hal: Database, udi: string, entries: seq<Entry>) returns (added: bool)
      requires Valid()
      modifies this
      ensures Valid() && fresh(repr - old(repr))
      ensures added <==> udi in hal
      ensures cells == Handlers.AddDevice(hal, old(cells), udi, entries)
    {
      if udi !in hal {
        return false;
      }
      var device := NewDevice(udi, entries);
      Link(device, Load(entries));
      added := true;
    }

    method Link(device: DeviceNode, ghost ps: seq<Property>)
      requires Valid() && device.Shows(ps) && device !in repr && device.next == null
      requires forall p | p in device.props :: p !in repr
      modifies this, device`next
      ensures Valid() && repr == old(repr) + {device} + set p | p in device.props
      ensures cells == [Cell(device.udi, ps)] + old(cells)
    {
      ghost var before, was := nodes, cells;
      forall i | 0 <= i < |nodes| ensures nodes[i] != device { At(i); }
      ApartCons(device, nodes);
      device.next := root;
      root := device;
      nodes := [device] + nodes;
      cells := [Cell(device.udi, ps)] + cells;
      repr := repr + {device} + set p | p in device.props;
      forall i | 0 <= i < |nodes| ensures Inside(nodes[i], repr) && Holds(nodes[i], cells[i], DeviceAfter(nodes, i)) {
        if i > 0 {
          assert nodes[i] == before[i - 1] && cells[i] == was[i - 1];
          assert old(Inside(before[i - 1], repr) && Holds(before[i - 1], was[i - 1], DeviceAfter(before, i - 1)));
        }
      }
    }

    /** `halevt_device_list_remove_device`. */
    method RemoveDevice(udi: string) returns (removed: bool)
      requires Valid()
      modifies repr
      ensures Valid() && repr == old(repr)
      ensures cells == Pop(old(cells), udi)
      ensures removed <==> |cells| < |old(cells)|
    {
      var previous, device := FindDevice(udi);
      ghost var i, before, was := FirstUdi(cells, udi, 0), nodes, cells;
      removed := device != null;
      if device != null {
        At(i);
        Unlink(previous, device, i);
      }
    }

    method Unlink(previous: DeviceNode?, device: DeviceNode, ghost i: nat)
      requires Valid() && i < |nodes| && device == nodes[i] && previous == DeviceAfter(nodes, i - 2)
      modifies this, previous
      ensures Valid() && repr == old(repr)
      ensures cells == old(cells)[..i] + old(cells)[i + 1..]
    {
      ghost var before, was := nodes, cells;
      At(i);
      if previous == null {
        root := device.next;
      } else {
        previous.next := device.next;
      }
      nodes := before[..i] + before[i + 1..];
      ApartWithout(before, i);
      cells := was[..i] + was[i + 1..];
      forall j | 0 <= j < |nodes| ensures Inside(nodes[j], repr) && Holds(nodes[j], cells[j], DeviceAfter(nodes, j)) {
        AfterUnlink(before, i, j);
        ghost var k := if j < i then j else j + 1;
        assert cells[j] == was[k];
        assert old(Inside(before[k], repr) && Holds(before[k], was[k], DeviceAfter(before, k)));
      }
    }

    /** `halevt_device_list_set_property`. */
    method SetProperty(hal: Database, udi: string, key: string) returns (ok: bool)
      requires Valid()
      modifies repr
      ensures Valid() && fresh(repr - old(repr))
      ensures cells == Handlers.SetProperty(hal, old(cells), udi, key)
      ensures ok <==> Lookup(old(cells), udi).Some? && HasProperty(hal, udi, key)
    {
      var _, device := FindDevice(udi);
      if device == null {
        return false;
      }
      var values := PropertyValue(hal, udi, key);
      if values.None? {
        return false;
      }
      At(FirstUdi(cells, udi, 0));
      SetAt(device, FirstUdi(cells, udi, 0), key, values.value);
      ok := true;
    }

    method SetAt(device: DeviceNode, ghost i: nat, key: string, values: seq<string>)
      requires Valid() && i < |nodes| && device == nodes[i]
      modifies repr
      ensures Valid() && fresh(repr - old(repr))
      ensures cells == old(cells)[i := Cell(device.udi, SetKey(old(cells)[i].properties, key, values))]
    {
      ghost var was := cells;
      At(i);
      Disjoint(i);
      device.Set(key, values, cells[i].properties);
      repr := repr + set p | p in device.props;
      cells := cells[i := Cell(device.udi, SetKey(was[i].properties, key, values))];
      forall j | 0 <= j < |nodes| ensures Inside(nodes[j], repr) && Holds(nodes[j], cells[j], DeviceAfter(nodes, j)) {
        assert old(Inside(nodes[j], repr) && Holds(nodes[j], cells[j], DeviceAfter(nodes, j)));
        if j != i { nodes[j].Unaffected(was[j].properties); }
      }
    }

    /** `halevt_device_list_remove_property`. */
    method RemoveProperty(udi: string, key: string) returns (ok: bool)
      requires Valid()
      modifies repr
      ensures Valid() && repr == old(repr)
      ensures cells == Handlers.RemoveProperty(old(cells), udi, key)
      ensures ok <==> Lookup(old(cells), udi).Some? && Get(Lookup(old(cells), udi).value, key).Some?
    {
      var _, device := FindDevice(udi);
      if device == null {
        return false;
      }
      At(FirstUdi(cells, udi, 0));
      ok := DropAt(device, FirstUdi(cells, udi, 0), key);
    }

    method DropAt(device: DeviceNode, ghost i: nat, key: string) returns (ok: bool)
      requires Valid() && i < |nodes| && device == nodes[i]
      modifies repr
      ensures Valid() && repr == old(repr)
      ensures cells == old(cells)[i := Cell(device.udi, DropKey(old(cells)[i].properties, key))]
      ensures ok <==> Get(old(cells)[i].properties, key).Some?
    {
      ghost var was := cells;
      At(i);
      Disjoint(i);
      ok := device.Drop(key, cells[i].properties);
      cells := cells[i := Cell(device.udi, DropKey(was[i].properties, key))];
      forall j | 0 <= j < |nodes| ensures Inside(nodes[j], repr) && Holds(nodes[j], cells[j], DeviceAfter(nodes, j)) {
        assert old(Inside(nodes[j], repr) && Holds(nodes[j], cells[j], DeviceAfter(nodes, j)));
        if j != i { nodes[j].Unaffected(was[j].properties); }
      }
    }

    /** No other device has a property node of this one. */
    lemma Disjoint(i: nat)
      requires Valid() && i < |nodes|
      ensures forall j, k | 0 <= j < |nodes| && j != i && 0 <= k < |nodes[j].props| :: nodes[j].props[k] !in nodes[i].props
    {
      At(i);
      forall j, k | 0 <= j < |nodes| && j != i && 0 <= k < |nodes[j].props| ensures nodes[j].props[k] !in nodes[i].props {
        At(j);
        nodes[j].At(cells[j].properties, k);
        if m :| 0 <= m < |nodes[i].props| && nodes[i].props[m] == nodes[j].props[k] {
          nodes[i].At(cells[i].properties, m);
        }
      }
    }
  }

  lemma LoadNext(entries: seq<Entry>, k: nat)
    requires k < |entries|
    ensures Load(entries[..k + 1]) == [Property(entries[k].key, Format(entries[k].value))] + Load(entries[..k])
  {
  }
}
