/**
 * What flattening and loading mean, node by node: the list is the nodes in document order, a node is named by its keys
 * with single dots between them, and the last node of a name decides its variable.
 */
module ConfigPaths {
  import opened Bytes
  import opened Configs

  /** Which member to take at each level, from the root down. */
  type Address = seq<nat>

  predicate HasNode(node: Node, addr: Address)
    decreases |addr|
  {
    addr == [] || (node.Map? && addr[0] < |node.members| && HasNode(node.members[addr[0]].node, addr[1..]))
  }

  function NodeAt(node: Node, addr: Address): Node
    requires HasNode(node, addr)
    decreases |addr|
  {
    if addr == [] then node else NodeAt(node.members[addr[0]].node, addr[1..])
  }

  function KeysAt(node: Node, addr: Address): (keys: seq<string>)
    requires HasNode(node, addr)
    ensures |keys| == |addr|
    decreases |addr|
  {
    if addr == [] then [] else [node.members[addr[0]].key] + KeysAt(node.members[addr[0]].node, addr[1..])
  }

  // ---------------------------------------------------------- document order

  /** A node comes before everything in it, and everything in one member before everything in a later one. */
  ghost predicate Earlier(a: Address, b: Address) {
    || a < b
    || exists i :: 0 <= i < |a| && i < |b| && a[..i] == b[..i] && a[i] < b[i]
  }

  function Addresses(node: Node): seq<Address>
    decreases node, 1
  {
    [[]] + if node.Map? then AddressesIn(node, |node.members|) else []
  }

  function AddressesIn(node: Node, n: nat): seq<Address>
    requires node.Map? && n <= |node.members|
    decreases node, 0, n
  {
    if n == 0 then [] else AddressesIn(node, n - 1) + Under(n - 1, Addresses(node.members[n - 1].node))
  }

  function Under(i: nat, addrs: seq<Address>): (r: seq<Address>)
    ensures |r| == |addrs|
    ensures forall j :: 0 <= j < |addrs| ==> r[j] == [i] + addrs[j]
  {
    if addrs == [] then [] else Under(i, addrs[..|addrs| - 1]) + [[i] + addrs[|addrs| - 1]]
  }

  ghost predicate Ordered(addrs: seq<Address>) {
    forall i, j :: 0 <= i < j < |addrs| ==> Earlier(addrs[i], addrs[j])
  }

  lemma EarlierBelow(i: nat, a: Address, b: Address)
    ensures Earlier([i] + a, [i] + b) <==> Earlier(a, b)
  {
    var a1, b1 := [i] + a, [i] + b;
    if k :| 0 <= k < |a| && k < |b| && a[..k] == b[..k] && a[k] < b[k] {
      assert a1[..k + 1] == [i] + a[..k] && b1[..k + 1] == [i] + b[..k];
      assert a1[k + 1] < b1[k + 1];
    }
    if k :| 0 <= k < |a1| && k < |b1| && a1[..k] == b1[..k] && a1[k] < b1[k] {
      assert a[..k - 1] == a1[..k][1..] && b[..k - 1] == b1[..k][1..];
    }
    if a < b {
      assert a1 < b1;
    }
    if a1 < b1 {
      assert a == a1[1..] && b == b1[1..];
      assert a < b;
    }
  }

  lemma EarlierMember(i: nat, j: nat, a: Address, b: Address)
    requires i < j
    ensures Earlier([i] + a, [j] + b)
  {
    var a1, b1 := [i] + a, [j] + b;
    assert a1[..0] == b1[..0] && a1[0] < b1[0];
  }

  /** The list of addresses is in document order, with every node once. */
  lemma {:induction false} AddressesAreOrdered(node: Node)
    ensures Ordered(Addresses(node))
    ensures forall addr :: addr in Addresses(node) <==> HasNode(node, addr)
    decreases node, 1
  {
    hide Earlier;
    if node.Map? {
      MembersAreOrdered(node, |node.members|);
      RootIsFirst(AddressesIn(node, |node.members|));
    }
    forall addr
      ensures addr in Addresses(node) <==> HasNode(node, addr)
    {
    }
  }

  lemma RootIsFirst(rest: seq<Address>)
    requires forall a :: a in rest ==> a != []
    requires Ordered(rest)
    ensures Ordered([[]] + rest)
  {
    forall j | 0 <= j < |rest|
      ensures Earlier([], rest[j])
    {
      assert rest[j] in rest;
      assert [] < rest[j];
    }
  }

  lemma {:induction false} MembersAreOrdered(node: Node, n: nat)
    requires node.Map? && n <= |node.members|
    ensures Ordered(AddressesIn(node, n))
    ensures forall addr :: addr in AddressesIn(node, n) <==> addr != [] && addr[0] < n && HasNode(node, addr)
    decreases node, 0, n
  {
    hide Earlier, Under, Addresses;
    if n != 0 {
      var addrs := Addresses(node.members[n - 1].node);
      MembersAreOrdered(node, n - 1);
      AddressesAreOrdered(node.members[n - 1].node);
      MemberAfter(AddressesIn(node, n - 1), n - 1, addrs);
      assert AddressesIn(node, n) == AddressesIn(node, n - 1) + Under(n - 1, addrs);
      forall addr
        ensures addr in Under(n - 1, addrs) <==> addr != [] && addr[0] == n - 1 && HasNode(node, addr)
      {
        UnderHas(n - 1, addrs, addr);
      }
    }
  }

  /** What lies in member `i` comes after everything in the members before it. */
  lemma MemberAfter(front: seq<Address>, i: nat, addrs: seq<Address>)
    requires Ordered(front) && Ordered(addrs)
    requires forall addr :: addr in front ==> addr != [] && addr[0] < i
    ensures Ordered(front + Under(i, addrs))
  {
    hide Earlier, Under;
    UnderIsOrdered(i, addrs);
    forall j, k | 0 <= j < |front| && 0 <= k < |addrs|
      ensures Earlier(front[j], [i] + addrs[k])
    {
      assert front[j] in front;
      assert front[j] == [front[j][0]] + front[j][1..];
      EarlierMember(front[j][0], i, front[j][1..], addrs[k]);
    }
  }

  lemma UnderHas(i: nat, addrs: seq<Address>, addr: Address)
    ensures addr in Under(i, addrs) <==> addr != [] && addr[0] == i && addr[1..] in addrs
  {
    if addr != [] && addr[0] == i && addr[1..] in addrs {
      var j :| 0 <= j < |addrs| && addrs[j] == addr[1..];
      assert addr == [i] + addrs[j];
      assert Under(i, addrs)[j] == addr;
    }
    if addr in Under(i, addrs) {
      var j :| 0 <= j < |addrs| && Under(i, addrs)[j] == addr;
      assert addr[1..] == addrs[j];
    }
  }

  lemma UnderIsOrdered(i: nat, addrs: seq<Address>)
    requires Ordered(addrs)
    ensures Ordered(Under(i, addrs))
  {
    hide Earlier;
    forall j, k | 0 <= j < k < |addrs|
      ensures Earlier(Under(i, addrs)[j], Under(i, addrs)[k])
    {
      EarlierBelow(i, addrs[j], addrs[k]);
    }
  }

  // --------------------------------------------------------------- the names

  /** The pieces of a string between its dots. */
  function SplitDots(s: string): (pieces: seq<string>)
    ensures |pieces| > 0
  {
    if s == "" then [""] else PutFirst(s[0], SplitDots(s[1..]))
  }

  /** A dot opens a new piece; any other character goes to the front of the first one. */
  function PutFirst(c: char, pieces: seq<string>): seq<string>
    requires |pieces| > 0
  {
    if c == '.' then [""] + pieces else [[c] + pieces[0]] + pieces[1..]
  }

  lemma PutFirstJoin(c: char, a: seq<string>, b: seq<string>)
    requires |a| > 0
    ensures PutFirst(c, a + b) == PutFirst(c, a) + b
  {
  }

  function AllPieces(keys: seq<string>): seq<string> {
    if keys == [] then [] else SplitDots(keys[0]) + AllPieces(keys[1..])
  }

  /** The pieces of a path of keys; empty keys at its start leave no trace in a name. */
  function Parts(keys: seq<string>): seq<string> {
    if keys != [] && keys[0] == "" then Parts(keys[1..]) else AllPieces(keys)
  }

  /** Between its dots the name reads as the path of keys; a path of empty keys has the empty name. */
  predicate Named(name: string, keys: seq<string>) {
    if Parts(keys) == [] then name == "" else SplitDots(name) == Parts(keys)
  }

  lemma {:induction false} SplitJoin(a: string, b: string)
    ensures SplitDots(a + "." + b) == SplitDots(a) + SplitDots(b)
  {
    if a == "" {
      assert (a + "." + b)[1..] == b;
    } else {
      SplitJoin(a[1..], b);
      assert (a + "." + b)[1..] == a[1..] + "." + b;
      PutFirstJoin(a[0], SplitDots(a[1..]), SplitDots(b));
    }
  }

  lemma FirstPiece(s: string)
    ensures SplitDots(s)[0] == "" <==> s == "" || s[0] == '.'
    ensures s == "" ==> |SplitDots(s)| == 1
    ensures s != "" && s[0] == '.' ==> |SplitDots(s)| > 1
  {
  }

  /** Splitting loses nothing: equal pieces come from equal strings. */
  lemma {:induction false} SplitIsInjective(a: string, b: string)
    requires SplitDots(a) == SplitDots(b)
    ensures a == b
  {
    if a != "" && b != "" && (a[0] == '.') == (b[0] == '.') {
      assert SplitDots(a)[1..] == SplitDots(b)[1..];
      if a[0] == '.' {
        assert SplitDots(a[1..]) == SplitDots(a)[1..] == SplitDots(b[1..]);
      } else {
        var x, y := SplitDots(a[1..]), SplitDots(b[1..]);
        assert SplitDots(a)[0] == [a[0]] + x[0] && SplitDots(b)[0] == [b[0]] + y[0];
        assert x[0] == SplitDots(a)[0][1..] == y[0];
        assert x == [x[0]] + SplitDots(a)[1..] && y == [y[0]] + SplitDots(b)[1..];
      }
      SplitIsInjective(a[1..], b[1..]);
      assert a == [a[0]] + a[1..] && b == [b[0]] + b[1..];
    } else {
      FirstPiece(a);
      FirstPiece(b);
    }
  }

  lemma {:induction false} DotFree(s: string)
    requires '.' !in s
    ensures SplitDots(s) == [s]
  {
    if s != "" {
      assert s[0] in s && forall c :: c in s[1..] ==> c in s;
      DotFree(s[1..]);
      assert s == [s[0]] + s[1..];
    }
  }

  /** A path of non-empty keys without dots is what its name reads as between the dots. */
  lemma {:induction false} PlainKeys(keys: seq<string>)
    requires forall k :: k in keys ==> k != "" && '.' !in k
    ensures Parts(keys) == AllPieces(keys) == keys
  {
    if keys != [] {
      assert keys[0] in keys && forall k :: k in keys[1..] ==> k in keys;
      DotFree(keys[0]);
      PlainKeys(keys[1..]);
      assert keys == [keys[0]] + keys[1..];
    }
  }

  /** The name of a member reads as the prefix with the member's key behind it. */
  lemma JoinedParts(prefix: string, key: string, rest: seq<string>)
    ensures Parts([JoinName(prefix, key)] + rest) == Parts([prefix, key] + rest)
  {
    assert ([prefix, key] + rest)[1..] == [key] + rest;
    if prefix == "" {
      assert JoinName(prefix, key) == key;
    } else {
      SplitJoin(prefix, key);
      assert ([JoinName(prefix, key)] + rest)[1..] == rest == ([key] + rest)[1..];
      assert AllPieces([prefix, key] + rest) == SplitDots(prefix) + (SplitDots(key) + AllPieces(rest));
    }
  }

  /** A name has one reading, and a reading one name. */
  lemma NamedOnce(a: string, b: string, keys: seq<string>)
    requires Named(a, keys) && Named(b, keys)
    ensures a == b
  {
    if Parts(keys) != [] {
      SplitIsInjective(a, b);
    }
  }

  // ------------------------------------------------- what flattening lists

  /** The entries are the nodes at these addresses, in this order, each under its name and with its text. */
  ghost predicate ListsNodes(prefix: string, node: Node, addrs: seq<Address>, entries: seq<Entry>) {
    && |entries| == |addrs|
    && forall i :: 0 <= i < |addrs| ==> ListsNode(prefix, node, addrs[i], entries[i])
  }

  ghost predicate ListsNode(prefix: string, node: Node, addr: Address, e: Entry) {
    HasNode(node, addr) && Named(e.name, [prefix] + KeysAt(node, addr)) && e.text == NodeAt(node, addr).text
  }

  lemma {:induction false} EverythingListsNodes(prefix: string, node: Node)
    ensures ListsNodes(prefix, node, Addresses(node), Everything(prefix, node))
    decreases node, 1
  {
    hide JoinName, ListsNode;
    RootIsListed(prefix, node);
    if node.Map? {
      MembersListNodes(prefix, node, |node.members|);
    }
  }

  lemma RootIsListed(prefix: string, node: Node)
    ensures ListsNode(prefix, node, [], Entry(prefix, node.text))
  {
    assert ([prefix] + [])[1..] == [];
    assert [prefix] + KeysAt(node, []) == [prefix];
    assert AllPieces([prefix]) == SplitDots(prefix) + AllPieces([]) == SplitDots(prefix);
  }

  lemma {:induction false} MembersListNodes(prefix: string, node: Node, n: nat)
    requires node.Map? && n <= |node.members|
    ensures ListsNodes(prefix, node, AddressesIn(node, n), EverythingIn(prefix, node, n))
    decreases node, 0, n
  {
    hide JoinName, ListsNode;
    if n != 0 {
      MembersListNodes(prefix, node, n - 1);
      var m := node.members[n - 1];
      var addrs, entries := Addresses(m.node), Everything(JoinName(prefix, m.key), m.node);
      EverythingListsNodes(JoinName(prefix, m.key), m.node);
      forall j | 0 <= j < |addrs|
        ensures ListsNode(prefix, node, [n - 1] + addrs[j], entries[j])
      {
        StepDown(prefix, node, n - 1, addrs[j], entries[j]);
      }
    }
  }

  lemma StepDown(prefix: string, node: Node, i: nat, addr: Address, e: Entry)
    requires node.Map? && i < |node.members|
    requires ListsNode(JoinName(prefix, node.members[i].key), node.members[i].node, addr, e)
    ensures ListsNode(prefix, node, [i] + addr, e)
  {
    hide JoinName, Parts;
    assert ([i] + addr)[1..] == addr;
    var m := node.members[i];
    var keys := KeysAt(m.node, addr);
    JoinedParts(prefix, m.key, keys);
    assert [prefix] + KeysAt(node, [i] + addr) == [prefix, m.key] + keys;
  }

  /** The nodes in document order, each under its path of keys, without those whose name is invalid. */
  ghost predicate FlattensNodes(prefix: string, node: Node, entries: seq<Entry>) {
    exists all :: ListsNodes(prefix, node, Addresses(node), all) && entries == KeepValid(all)
  }

  lemma FlatteningFollowsPaths(prefix: string, node: Node)
    ensures FlattensNodes(prefix, node, Flatten(prefix, node))
  {
    hide ListsNodes, KeepValid, Flatten, Everything, Addresses;
    PruningIsFiltering(prefix, node);
    EverythingListsNodes(prefix, node);
  }

  // ------------------------------------------------- what loading sets

  /** The node at this address carries the name, and its text converts. */
  ghost predicate Sets(root: Node, conv: Conversion, addr: Address, x: string) {
    && x != "" && HasNode(root, addr)
    && SplitDots(x) == Parts(KeysAt(root, addr))
    && conv(x, NodeAt(root, addr).text).Some?
  }

  /** It is the last one in the document that does. */
  ghost predicate Decides(root: Node, conv: Conversion, addr: Address, x: string) {
    Sets(root, conv, addr, x) && forall b :: Sets(root, conv, b, x) ==> b == addr || Earlier(b, addr)
  }

  /** Each variable with a valid name gets the text of the node that decides it; all others stay as they are. */
  ghost predicate LoadsNodes(before: Variables, conv: Conversion, root: Node, after: Variables) {
    && after.Keys == before.Keys
    && (forall x, addr :: x in before && ValidName(x) && Decides(root, conv, addr, x) ==>
          Some(after[x]) == conv(x, NodeAt(root, addr).text))
    && (forall x :: x in before && (!ValidName(x) || forall addr :: !Sets(root, conv, addr, x)) ==>
          after[x] == before[x])
  }

  lemma EarlierIsStrict(a: Address, b: Address)
    requires Earlier(a, b)
    ensures !Earlier(b, a)
  {
  }

  predicate Matches(e: Entry, conv: Conversion, x: string) {
    e.name == x && conv(x, e.text).Some?
  }

  lemma {:induction false} LastMatch(entries: seq<Entry>, conv: Conversion, x: string) returns (i: int)
    ensures -1 <= i < |entries|
    ensures i >= 0 ==> Matches(entries[i], conv, x) && LastValue(entries, conv, x) == conv(x, entries[i].text)
    ensures i < 0 ==> LastValue(entries, conv, x) == None
    ensures forall j :: i < j < |entries| ==> !Matches(entries[j], conv, x)
  {
    i := |entries| - 1;
    if entries != [] && !Matches(entries[i], conv, x) {
      i := LastMatch(entries[..i], conv, x);
    }
  }

  lemma EntrySets(root: Node, conv: Conversion, addr: Address, e: Entry, x: string)
    requires x != "" && ListsNode("", root, addr, e)
    ensures Matches(e, conv, x) <==> Sets(root, conv, addr, x)
  {
    var keys := KeysAt(root, addr);
    assert ([""] + keys)[1..] == keys;
    if Sets(root, conv, addr, x) {
      NamedOnce(e.name, x, keys);
    }
  }

  /** The last entry of a name that converts is the node that decides it. */
  lemma LastValueIsDecided(root: Node, conv: Conversion, x: string)
    requires x != ""
    ensures forall a :: Decides(root, conv, a, x) ==>
              LastValue(Everything("", root), conv, x) == conv(x, NodeAt(root, a).text)
    ensures LastValue(Everything("", root), conv, x).Some? ==> exists a :: Decides(root, conv, a, x)
    ensures LastValue(Everything("", root), conv, x).None? ==> forall a :: !Sets(root, conv, a, x)
  {
    hide Sets, Matches, ListsNode, Earlier, Everything, Addresses, LastValue;
    var addrs, entries := Addresses(root), Everything("", root);
    AddressesAreOrdered(root);
    EverythingListsNodes("", root);
    var i := LastMatch(entries, conv, x);
    forall j | 0 <= j < |addrs|
      ensures Matches(entries[j], conv, x) <==> Sets(root, conv, addrs[j], x)
    {
      EntrySets(root, conv, addrs[j], entries[j], x);
    }
    forall b | Sets(root, conv, b, x)
      ensures i >= 0 && (b == addrs[i] || Earlier(b, addrs[i]))
    {
      SetterIsNode(root, conv, b, x);
      var j :| 0 <= j < |addrs| && addrs[j] == b;
    }
    if i >= 0 {
      EntryText("", root, addrs[i], entries[i]);
      assert Decides(root, conv, addrs[i], x);
      forall a | Decides(root, conv, a, x)
        ensures a == addrs[i]
      {
        if a != addrs[i] {
          EarlierIsStrict(a, addrs[i]);
        }
      }
    }
  }

  lemma SetterIsNode(root: Node, conv: Conversion, addr: Address, x: string)
    requires Sets(root, conv, addr, x)
    ensures HasNode(root, addr)
  {
  }

  lemma EntryText(prefix: string, node: Node, addr: Address, e: Entry)
    requires ListsNode(prefix, node, addr, e)
    ensures HasNode(node, addr) && e.text == NodeAt(node, addr).text
  {
  }

  lemma VariableIsDecided(vars: Variables, conv: Conversion, root: Node, x: string)
    requires x in vars
    ensures LoadTree(vars, conv, root).Keys == vars.Keys
    ensures forall a :: ValidName(x) && Decides(root, conv, a, x) ==>
              Some(LoadTree(vars, conv, root)[x]) == conv(x, NodeAt(root, a).text)
    ensures (!ValidName(x) || forall a :: !Sets(root, conv, a, x)) ==> LoadTree(vars, conv, root)[x] == vars[x]
  {
    hide Everything, LastValue, LoadTree, ValidName, HasNode, NodeAt, Parts, SplitDots, Earlier;
    LoadingSetsLastValues(vars, conv, root);
    if x != "" {
      LastValueIsDecided(root, conv, x);
    }
  }

  /** Loading gives each variable the text of the last node whose path of keys is the variable's name. */
  lemma LoadingFollowsPaths(vars: Variables, conv: Conversion, root: Node)
    ensures LoadsNodes(vars, conv, root, LoadTree(vars, conv, root))
  {
    hide Sets, Decides, LoadTree, ValidName;
    LoadingSetsLastValues(vars, conv, root);
    forall x | x in vars {
      VariableIsDecided(vars, conv, root, x);
    }
  }

  // ------------------------------------------------- documents with plain keys

  /** No key is empty or holds a dot, and no map has a key twice. */
  predicate PlainTree(node: Node) {
    node.Map? ==>
      && (forall i :: 0 <= i < |node.members| ==>
            node.members[i].key != "" && '.' !in node.members[i].key && PlainTree(node.members[i].node))
      && (forall i, j :: 0 <= i < j < |node.members| ==> node.members[i].key != node.members[j].key)
  }

  lemma {:induction false} PathsArePlain(node: Node, addr: Address)
    requires PlainTree(node) && HasNode(node, addr)
    ensures forall k :: k in KeysAt(node, addr) ==> k != "" && '.' !in k
    decreases |addr|
  {
    if addr != [] {
      PathsArePlain(node.members[addr[0]].node, addr[1..]);
    }
  }

  lemma {:induction false} OneNodePerPath(node: Node, a: Address, b: Address)
    requires PlainTree(node) && HasNode(node, a) && HasNode(node, b) && KeysAt(node, a) == KeysAt(node, b)
    ensures a == b
    decreases |a|
  {
    if a != [] {
      var x, y := node.members[a[0]], node.members[b[0]];
      assert KeysAt(node, a)[0] == x.key && KeysAt(node, b)[0] == y.key;
      assert KeysAt(node, a)[1..] == KeysAt(x.node, a[1..]) && KeysAt(node, b)[1..] == KeysAt(y.node, b[1..]);
      OneNodePerPath(x.node, a[1..], b[1..]);
      assert a == [a[0]] + a[1..] && b == [b[0]] + b[1..];
    }
  }

  /** There, the variable whose name splits at its dots into a node's path of keys gets that node's text. */
  lemma PathIsLoaded(vars: Variables, conv: Conversion, root: Node, addr: Address, x: string)
    requires PlainTree(root) && HasNode(root, addr) && SplitDots(x) == KeysAt(root, addr)
    requires x in vars && ValidName(x) && conv(x, NodeAt(root, addr).text).Some?
    ensures var after := LoadTree(vars, conv, root); x in after && Some(after[x]) == conv(x, NodeAt(root, addr).text)
  {
    hide PlainTree, HasNode, NodeAt, KeysAt, Parts, LoadTree, ValidName, Earlier;
    PathsArePlain(root, addr);
    PlainKeys(KeysAt(root, addr));
    assert x != "" by {
      assert KeysAt(root, addr)[0] in KeysAt(root, addr);
    }
    forall b | Sets(root, conv, b, x)
      ensures b == addr
    {
      PathsArePlain(root, b);
      PlainKeys(KeysAt(root, b));
      OneNodePerPath(root, b, addr);
    }
    LoadingFollowsPaths(vars, conv, root);
    assert Decides(root, conv, addr, x);
  }
}
