/**
 OpenStreetMap side: turning a node's tags into an address, and choosing
 which objects of the extract are imported.
 */
module OsmAddress {
  import opened Wrappers
  import opened Addresses
  import opened Seqs

  /** One `key=value` tag of a node. */
  datatype Tag = Tag(key: string, value: string)

  /** A node: its coordinate and its tags in iteration order. */
  datatype Node = Node(lat: real, lon: real, tags: seq<Tag>)

  /** The seven text fields an address tag can fill. */
  datatype Field = Number | Street | Unit | City | District | Region | Postcode

  /** The tag key that fills each field. */
  function KeyOf(f: Field): string
  {
    match f
    case Number => "addr:housenumber"
    case Street => "addr:street"
    case Unit => "addr:unit"
    case City => "addr:city"
    case District => "addr:district"
    case Region => "addr:region"
    case Postcode => "addr:postcode"
  }

  function Get(a: Address, f: Field): Option<string>
  {
    match f
    case Number => a.number
    case Street => a.street
    case Unit => a.unit
    case City => a.city
    case District => a.district
    case Region => a.region
    case Postcode => a.postcode
  }

  /** One step of the tag loop: a recognised key overwrites its field,
      any other key changes nothing. */
  function ApplyTag(a: Address, t: Tag): (r: Address)
    ensures r.lat == a.lat && r.lon == a.lon
    ensures forall f :: Get(r, f) == if t.key == KeyOf(f) then Some(t.value) else Get(a, f)
  {
    match t.key
    case "addr:housenumber" => a.(number := Some(t.value))
    case "addr:street" => a.(street := Some(t.value))
    case "addr:unit" => a.(unit := Some(t.value))
    case "addr:city" => a.(city := Some(t.value))
    case "addr:district" => a.(district := Some(t.value))
    case "addr:region" => a.(region := Some(t.value))
    case "addr:postcode" => a.(postcode := Some(t.value))
    case _ => a
  }

  /** A tag whose key fills no field leaves the address as it was. */
  lemma OtherKeyChangesNothing(a: Address, t: Tag)
    requires forall f :: t.key != KeyOf(f)
    ensures ApplyTag(a, t) == a
  {
    var r := ApplyTag(a, t);
    assert Get(r, Number) == a.number && Get(r, Street) == a.street && Get(r, Unit) == a.unit;
    assert Get(r, City) == a.city && Get(r, District) == a.district;
    assert Get(r, Region) == a.region && Get(r, Postcode) == a.postcode;
  }

  /** The tag loop: apply the tags in order. */
  function ApplyTags(a: Address, tags: seq<Tag>): (r: Address)
    ensures r.lat == a.lat && r.lon == a.lon
    decreases |tags|
  {
    if |tags| == 0 then a else ApplyTags(ApplyTag(a, tags[0]), tags[1..])
  }

  /** Reference definition: the value of the last tag with key `key`. */
  function LastValue(tags: seq<Tag>, key: string): (r: Option<string>)
    ensures r.None? <==> forall i :: 0 <= i < |tags| ==> tags[i].key != key
    ensures r.Some? ==> exists i :: 0 <= i < |tags| && tags[i] == Tag(key, r.value)
                          && forall j :: i < j < |tags| ==> tags[j].key != key
    decreases |tags|
  {
    if |tags| == 0 then None
    else
      var later := LastValue(tags[1..], key);
      assert forall i :: 1 <= i < |tags| ==> tags[i] == tags[1..][i - 1];
      match later
      case Some(v) =>
        ghost var i :| 0 <= i < |tags[1..]| && tags[1..][i] == Tag(key, v)
                       && forall j :: i < j < |tags[1..]| ==> tags[1..][j].key != key;
        assert tags[i + 1] == Tag(key, v);
        later
      case None => if tags[0].key == key then Some(tags[0].value) else None
  }

  /** A later value, if any, wins over an earlier one. */
  function Latest(later: Option<string>, earlier: Option<string>): Option<string>
  {
    if later.Some? then later else earlier
  }

  /** Applying the tags in order leaves in each field the value of the last
      tag with its key, and the field's previous value when there is none. */
  lemma {:induction false} ApplyTagsLastWins(a: Address, tags: seq<Tag>)
    ensures ApplyTags(a, tags).lat == a.lat && ApplyTags(a, tags).lon == a.lon
    ensures forall f :: Get(ApplyTags(a, tags), f) == Latest(LastValue(tags, KeyOf(f)), Get(a, f))
    decreases |tags|
  {
    if |tags| > 0 {
      ApplyTagsLastWins(ApplyTag(a, tags[0]), tags[1..]);
    }
  }

  /** The address with the node's coordinate and every text field empty. */
  function Blank(lat: real, lon: real): (r: Address)
    ensures r.lat == lat && r.lon == lon
    ensures forall f :: Get(r, f) == None
  {
    Address(lat, lon, None, None, None, None, None, None, None)
  }

  /** `Address::new`: coordinates come from the node, and each field holds
      the value of its key's tag, or nothing when the key is absent. */
  function NewAddress(node: Node): (a: Address)
    ensures a.lat == node.lat && a.lon == node.lon
    ensures forall f :: Get(a, f) == LastValue(node.tags, KeyOf(f))
  {
    ApplyTagsLastWins(Blank(node.lat, node.lon), node.tags);
    ApplyTags(Blank(node.lat, node.lon), node.tags)
  }

  /** No two tags of the list share a key, as in a node's tag map. */
  ghost predicate KeysUnique(tags: seq<Tag>)
  {
    forall i, j :: 0 <= i < j < |tags| ==> tags[i].key != tags[j].key
  }

  /** With unique keys, a field holds exactly the value of its key's tag. */
  lemma NewAddressReadsTag(node: Node, i: nat, f: Field)
    requires KeysUnique(node.tags)
    requires i < |node.tags| && node.tags[i].key == KeyOf(f)
    ensures Get(NewAddress(node), f) == Some(node.tags[i].value)
  {
    var v := LastValue(node.tags, KeyOf(f));
    var k :| 0 <= k < |node.tags| && node.tags[k] == Tag(KeyOf(f), v.value)
             && forall j :: k < j < |node.tags| ==> node.tags[j].key != KeyOf(f);
    assert k == i;
  }

  /** `pat` occurs in `s` as a contiguous piece. */
  predicate Contains(s: string, pat: string)
    decreases |s|
  {
    |pat| <= |s| && (s[..|pat|] == pat || Contains(s[1..], pat))
  }

  /** `pat` occurs in `s` starting at position `i`. */
  ghost predicate OccursAt(s: string, pat: string, i: int)
  {
    0 <= i && i + |pat| <= |s| && s[i..i + |pat|] == pat
  }

  /** `Contains` is substring search. */
  lemma {:induction false} ContainsIff(s: string, pat: string)
    ensures Contains(s, pat) <==> exists i :: OccursAt(s, pat, i)
    decreases |s|
  {
    if |pat| <= |s| {
      if s[..|pat|] == pat {
        assert OccursAt(s, pat, 0);
      }
      if |s| > 0 {
        ContainsIff(s[1..], pat);
        if Contains(s[1..], pat) {
          var i :| OccursAt(s[1..], pat, i);
          assert s[1..][i..i + |pat|] == s[i + 1..i + 1 + |pat|];
          assert OccursAt(s, pat, i + 1);
        }
      }
      if exists i :: OccursAt(s, pat, i) {
        var i :| OccursAt(s, pat, i);
        if i > 0 {
          assert s[1..][i - 1..i - 1 + |pat|] == s[i..i + |pat|];
          assert OccursAt(s[1..], pat, i - 1);
        }
      }
    }
  }

  /** Some tag key of the node contains "addr:". */
  predicate HasAddrTag(n: Node)
  {
    exists i | 0 <= i < |n.tags| :: Contains(n.tags[i].key, "addr:")
  }

  /** The objects of an extract; ways and relations are kept opaque. */
  datatype OsmObj = NodeObj(node: Node) | WayObj(id: int) | RelationObj(id: int)

  /** One result of the extract reader. */
  datatype ReadItem = Read(obj: OsmObj) | ReadError(message: string)

  /** The read item is a node with an address tag. */
  predicate Imported(item: ReadItem)
  {
    item.Read? && item.obj.NodeObj? && HasAddrTag(item.obj.node)
  }

  /** The reader's filter: nodes with an address tag, in reading order;
      ways, relations, read errors and other nodes are skipped. */
  function SelectNodes(items: seq<ReadItem>): (r: seq<Node>)
    ensures |r| <= |items|
    ensures forall i :: 0 <= i < |r| ==> HasAddrTag(r[i]) && Read(NodeObj(r[i])) in items
    ensures forall j :: 0 <= j < |items| && Imported(items[j]) ==> items[j].obj.node in r
    decreases |items|
  {
    if |items| == 0 then []
    else
      var rest := SelectNodes(items[1..]);
      assert forall j :: 1 <= j < |items| ==> items[j] == items[1..][j - 1];
      if Imported(items[0]) then [items[0].obj.node] + rest else rest
  }

  /** The selected nodes are the imported read items themselves, one for
      one and in reading order: nothing is reordered, merged or repeated. */
  lemma {:induction false} SelectNodesKeepsOrder(items: seq<ReadItem>)
    ensures |SelectNodes(items)| == |Filter(items, Imported)|
    ensures forall i :: 0 <= i < |SelectNodes(items)| ==> Filter(items, Imported)[i] == Read(NodeObj(SelectNodes(items)[i]))
    decreases |items|
  {
    if |items| > 0 {
      SelectNodesKeepsOrder(items[1..]);
      if Imported(items[0]) {
        assert items[0] == Read(NodeObj(items[0].obj.node));
      }
    }
  }
}
