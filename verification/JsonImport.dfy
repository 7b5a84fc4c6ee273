/** What the receiver reads out of a parsed message: json::find, json::get and json_import. */
module JsonImport {
  import opened Json
  import opened JsonMessage
  import opened JsonTree
  import opened JsonRoundTrip

  // ----- the tree read back ----------------------------------------------------------

  datatype Item = Item(kind: Kind, tag: string, text: string, items: seq<Item>)

  /** The items of a list, read from the nodes. */
  ghost function Decode(nodes: seq<Node>, i: int): seq<Item>
    requires Linked(nodes) && -1 <= i < |nodes|
    decreases |nodes| - i, i
  {
    if i == -1 then []
    else
      assert NodeLinked(nodes, i);
      var n := nodes[i];
      [Item(n.kind, n.tag, n.text, if n.kind == List then Decode(nodes, n.list) else [])]
        + (if n.next == -1 then [] else Decode(nodes, n.next))
  }

  /** What a field should be read back as: its type recovered, its tag and text unchanged. */
  function Expected(f: Field): Item {
    Item(KindOf(f), f.tag, TextOf(f), if f.Group? then ExpectedAll(f.fields) else [])
  }

  function ExpectedAll(fs: seq<Field>): (r: seq<Item>)
    ensures |r| == |fs|
  {
    if fs == [] then [] else [Expected(fs[0])] + ExpectedAll(fs[1..])
  }

  /** The nodes from `b` on are those laid out for the fields. */
  ghost predicate LaidOut(nodes: seq<Node>, fs: seq<Field>, b: int, parent: int) {
    0 <= b && b + SizeAll(fs) <= |nodes| && nodes[b..b + SizeAll(fs)] == LayAll(fs, b, parent)
  }

  /** A field is there, and after it the rest of the list. */
  lemma LaidOutParts(nodes: seq<Node>, fs: seq<Field>, b: int, parent: int)
    requires LaidOut(nodes, fs, b, parent) && fs != []
    ensures var f, next := fs[0], b + Size(fs[0]);
            && nodes[b..next] == Lay(f, b, parent, if |fs| == 1 then -1 else next)
            && LaidOut(nodes, fs[1..], next, parent)
  {
    var next := b + Size(fs[0]);
    SplitSlice(nodes, b, Lay(fs[0], b, parent, if |fs| == 1 then -1 else next), LayAll(fs[1..], next, parent));
  }

  /** A group is its own node and after it its list. */
  lemma GroupParts(nodes: seq<Node>, f: Field, b: nat, parent: int, next: int)
    requires b + Size(f) <= |nodes| && nodes[b..b + Size(f)] == Lay(f, b, parent, next)
    ensures nodes[b] == Lay(f, b, parent, next)[0]
    ensures f.Group? ==> LaidOut(nodes, f.fields, b + 1, b)
  {
    assert nodes[b] == nodes[b..b + Size(f)][0];
    if f.Group? { SplitSlice(nodes, b, [nodes[b]], LayAll(f.fields, b + 1, b)); }
  }

  lemma SplitSlice<T>(s: seq<T>, b: nat, x: seq<T>, y: seq<T>)
    requires b + |x + y| <= |s| && s[b..b + |x + y|] == x + y
    ensures s[b..b + |x|] == x && s[b + |x|..b + |x + y|] == y
    ensures x != [] ==> s[b] == x[0]
  {
    var all := s[b..b + |x + y|];
    assert all[..|x|] == s[b..b + |x|];
    assert all[|x|..] == s[b + |x|..b + |x + y|];
    assert (x + y)[..|x|] == x && (x + y)[|x|..] == y;
    assert x != [] ==> all[0] == s[b] == x[0];
  }

  lemma HeadNode(f: Field, b: int, parent: int, next: int)
    ensures Lay(f, b, parent, next)[0] ==
        Node(KindOf(f), f.tag, TextOf(f), if f.Group? then b + 1 else -1, next, parent)
    ensures f.Group? <==> KindOf(f) == List
  {
  }

  /** An item is read back, given that its list and what follows it are. */
  lemma DecodeJoins(nodes: seq<Node>, b: nat, f: Field, more: seq<Field>)
    requires Linked(nodes) && b < |nodes|
    requires nodes[b].kind == KindOf(f) && nodes[b].tag == f.tag && nodes[b].text == TextOf(f)
    requires NodeLinked(nodes, b) && (KindOf(f) == List <==> f.Group?)
    requires f.Group? ==> Decode(nodes, nodes[b].list) == ExpectedAll(f.fields)
    requires if nodes[b].next == -1 then more == [] else Decode(nodes, nodes[b].next) == ExpectedAll(more)
    ensures Decode(nodes, b) == [Expected(f)] + ExpectedAll(more)
  {
  }

  lemma {:induction false} DecodeLaidOut(nodes: seq<Node>, fs: seq<Field>, b: int, parent: int)
    requires Linked(nodes) && LaidOut(nodes, fs, b, parent) && FullAll(fs)
    ensures Decode(nodes, b) == ExpectedAll(fs)
    decreases fs
  {
    LaidOutStep(nodes, fs, b, parent);
    var f, more := fs[0], fs[1..];
    if f.Group? { DecodeLaidOut(nodes, f.fields, b + 1, b); }
    if |fs| > 1 { DecodeLaidOut(nodes, more, b + Size(f), parent); }
    DecodeJoins(nodes, b, f, more);
  }

  lemma LaidOutStep(nodes: seq<Node>, fs: seq<Field>, b: int, parent: int)
    requires Linked(nodes) && LaidOut(nodes, fs, b, parent) && FullAll(fs)
    ensures var f, next := fs[0], if |fs| == 1 then -1 else b + Size(fs[0]);
            && 0 <= b < |nodes| && NodeLinked(nodes, b)
            && nodes[b] == Node(KindOf(f), f.tag, TextOf(f), if f.Group? then b + 1 else -1, next, parent)
            && (f.Group? <==> KindOf(f) == List)
    ensures fs[0].Group? ==> LaidOut(nodes, fs[0].fields, b + 1, b) && FullAll(fs[0].fields)
    ensures |fs| > 1 ==> LaidOut(nodes, fs[1..], b + Size(fs[0]), parent) && FullAll(fs[1..])
  {
    var next := if |fs| == 1 then -1 else b + Size(fs[0]);
    LaidOutParts(nodes, fs, b, parent);
    GroupParts(nodes, fs[0], b, parent, next);
    HeadNode(fs[0], b, parent, next);
    assert NodeLinked(nodes, b) && NoEmptyGroup(fs[0]);
  }

  /** The round trip: parsing the text of a message gives back the message, with the types of
      its items recovered. */
  lemma RoundTrip(fs: seq<Field>)
    requires CleanAll(fs) && FullAll(fs)
    ensures var s := Parse(RenderMessage(fs));
            s.Some? && Inv(s.value) && Decode(s.value.nodes, 0) == ExpectedAll(fs)
  {
    ParseMessage(fs);
    ParsedIsTree(RenderMessage(fs));
    var nodes := LayAll(fs, 0, -1);
    assert nodes[0..SizeAll(fs)] == nodes;
    DecodeLaidOut(nodes, fs, 0, -1);
  }

  // ----- looking up tags -------------------------------------------------------------

  /** The fields of a message in the order of its text, groups before what is in them. */
  function AllFields(fs: seq<Field>): seq<Field> {
    if fs == [] then []
    else [fs[0]] + (if fs[0].Group? then AllFields(fs[0].fields) else []) + AllFields(fs[1..])
  }

  predicate Carries(nodes: seq<Node>, fields: seq<Field>) {
    && |nodes| == |fields|
    && forall k :: 0 <= k < |nodes| ==>
         nodes[k].tag == fields[k].tag && nodes[k].text == TextOf(fields[k]) && nodes[k].kind == KindOf(fields[k])
  }

  /** The nodes carry the tags and texts of the fields in that order. */
  lemma {:induction false} LayCarriesFields(fs: seq<Field>, b: int, parent: int)
    ensures Carries(LayAll(fs, b, parent), AllFields(fs))
  {
    if fs != [] {
      var f, next := fs[0], b + Size(fs[0]);
      var head := Lay(f, b, parent, if |fs| == 1 then -1 else next);
      LayCarriesFields(fs[1..], next, parent);
      HeadNode(f, b, parent, if |fs| == 1 then -1 else next);
      if f.Group? {
        var inside, within := LayAll(f.fields, b + 1, b), AllFields(f.fields);
        LayCarriesFields(f.fields, b + 1, b);
        CarriesTwice([head[0]], [f], inside, within);
        assert head == [head[0]] + inside;
        CarriesTwice(head, [f] + within, LayAll(fs[1..], next, parent), AllFields(fs[1..]));
      } else {
        CarriesTwice(head, [f], LayAll(fs[1..], next, parent), AllFields(fs[1..]));
        assert [f] + [] == [f];
      }
    }
  }

  lemma CarriesTwice(a: seq<Node>, fa: seq<Field>, b: seq<Node>, fb: seq<Field>)
    requires Carries(a, fa) && Carries(b, fb)
    ensures Carries(a + b, fa + fb)
  {
  }

  /** json::get: the text of the item found. */
  ghost function Get(s: State, tag: string): Option<string>
    requires Inv(s)
  {
    var k := Find(s.nodes, 0, tag);
    if k == -1 then None else Some(s.nodes[k].text)
  }

  predicate DistinctTags(fs: seq<Field>) {
    forall i, j :: 0 <= i < j < |AllFields(fs)| ==> AllFields(fs)[i].tag != AllFields(fs)[j].tag
  }

  /** json_import, called with a tag, the caller's value and its room for one: a null value only
      checks the tag, no room asks for the same value, and else the value is replaced. */
  datatype Imported = Imported(code: int, value: Option<string>)

  function Import(found: Option<string>, tag: Option<string>, v: Option<string>, room: nat): Imported {
    if tag == None then Imported(1, v)
    else if found == None then Imported(0, v)
    else if v == None then Imported(1, v)
    else if room == 0 then Imported(if v == found then 1 else 0, v)
    else if |found.value| < room then Imported(1, found)
    else Imported(0, v)
  }

  /** For a message with distinct tags, looking up any tag of it, at any depth, gives exactly the
      text exported under it, and any other tag is missing. */
  lemma LookupIsExact(fs: seq<Field>, tag: string)
    requires CleanAll(fs) && FullAll(fs) && DistinctTags(fs)
    ensures Parse(RenderMessage(fs)).Some? && Inv(Parse(RenderMessage(fs)).value)
    ensures var got := Get(Parse(RenderMessage(fs)).value, tag);
            && (forall k :: 0 <= k < |AllFields(fs)| && AllFields(fs)[k].tag == tag ==>
                got == Some(TextOf(AllFields(fs)[k])))
            && ((forall k :: 0 <= k < |AllFields(fs)| ==> AllFields(fs)[k].tag != tag) ==> got == None)
  {
    RoundTrip(fs);
    ParseMessage(fs);
    LayCarriesFields(fs, 0, -1);
    FoundIsSent(Parse(RenderMessage(fs)).value, fs, tag);
  }

  lemma FoundIsSent(s: State, fs: seq<Field>, tag: string)
    requires Inv(s) && Carries(s.nodes, AllFields(fs)) && DistinctTags(fs)
    ensures forall k :: 0 <= k < |AllFields(fs)| && AllFields(fs)[k].tag == tag ==>
        Get(s, tag) == Some(TextOf(AllFields(fs)[k]))
    ensures (forall k :: 0 <= k < |AllFields(fs)| ==> AllFields(fs)[k].tag != tag) ==> Get(s, tag) == None
  {
    FindIsComplete(s, tag);
    var found, all := Find(s.nodes, 0, tag), AllFields(fs);
    forall k | 0 <= k < |all| && all[k].tag == tag ensures found == k {
      assert s.nodes[k].tag == tag;
      assert all[found].tag == tag;
    }
  }

  /** So importing with room enough yields the exported text, and fails on a tag never exported. */
  lemma ImportYieldsExported(fs: seq<Field>, k: nat, v: string, room: nat)
    requires CleanAll(fs) && FullAll(fs) && DistinctTags(fs) && k < |AllFields(fs)|
    requires |TextOf(AllFields(fs)[k])| < room
    ensures Parse(RenderMessage(fs)).Some? && Inv(Parse(RenderMessage(fs)).value)
    ensures var f := AllFields(fs)[k];
            Import(Get(Parse(RenderMessage(fs)).value, f.tag), Some(f.tag), Some(v), room) ==
                Imported(1, Some(TextOf(f)))
  {
    LookupIsExact(fs, AllFields(fs)[k].tag);
  }

  /** What an import of a tag of the message is answered, and what becomes of the caller's value. Without
      a value the tag is only looked for; without room the value is only compared, and else it is replaced
      if the text and its terminator fit. */
  lemma ImportAnswers(fs: seq<Field>, k: nat, v: string, room: nat)
    requires CleanAll(fs) && FullAll(fs) && DistinctTags(fs) && k < |AllFields(fs)|
    ensures Parse(RenderMessage(fs)).Some? && Inv(Parse(RenderMessage(fs)).value)
    ensures var tag, text := AllFields(fs)[k].tag, TextOf(AllFields(fs)[k]);
            var found := Get(Parse(RenderMessage(fs)).value, tag);
            && Import(found, Some(tag), None, room) == Imported(1, None)
            && (room == 0 ==> Import(found, Some(tag), Some(v), room) == Imported(if v == text then 1 else 0, Some(v)))
            && (0 < room <= |text| ==> Import(found, Some(tag), Some(v), room) == Imported(0, Some(v)))
            && (room > |text| ==> Import(found, Some(tag), Some(v), room) == Imported(1, Some(text)))
  {
    LookupIsExact(fs, AllFields(fs)[k].tag);
  }

  /** Any other tag is answered 0 and changes nothing; no tag at all is answered 1. */
  lemma ImportOfOther(fs: seq<Field>, tag: string, v: Option<string>, room: nat)
    requires CleanAll(fs) && FullAll(fs) && DistinctTags(fs)
    requires forall k :: 0 <= k < |AllFields(fs)| ==> AllFields(fs)[k].tag != tag
    ensures Parse(RenderMessage(fs)).Some? && Inv(Parse(RenderMessage(fs)).value)
    ensures var found := Get(Parse(RenderMessage(fs)).value, tag);
            Import(found, Some(tag), v, room) == Imported(0, v) && Import(found, None, v, room) == Imported(1, v)
  {
    LookupIsExact(fs, tag);
  }
}
