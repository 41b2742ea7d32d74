/** Configuration trees: flattening with pruning, and loading the flattened list into the variables. */
module Configs {
  import opened Bytes

  /** A parsed document. `text` is what a variable is set from: the scalar itself, or the emitted text of the node. */
  datatype Node = Scalar(text: string) | Sequence(text: string) | Map(text: string, members: seq<Member>)

  datatype Member = Member(key: string, node: Node)

  datatype Entry = Entry(name: string, text: string)

  /** How a variable of each name converts text to its value; `None` when the conversion throws. */
  type Conversion = (string, string) -> Option<string>

  type Variables = map<string, string>

  const NAME_CHARS := "abcdefghikjlmnopqrstuvwxyz._012345678"

  predicate ValidName(name: string) {
    forall i :: 0 <= i < |name| ==> name[i] in NAME_CHARS
  }

  function JoinName(prefix: string, key: string): string {
    if prefix == "" then key else prefix + "." + key
  }

  // -------------------------------------------------------------- flattening

  /** Pre-order, cutting off every subtree whose name is invalid. */
  function Flatten(prefix: string, node: Node): seq<Entry>
    decreases node, 1
  {
    if !ValidName(prefix) then []
    else [Entry(prefix, node.text)] + if node.Map? then FlattenMembers(prefix, node, |node.members|) else []
  }

  function FlattenMembers(prefix: string, node: Node, n: nat): seq<Entry>
    requires node.Map? && n <= |node.members|
    decreases node, 0, n
  {
    if n == 0 then []
    else FlattenMembers(prefix, node, n - 1)
         + Flatten(JoinName(prefix, node.members[n - 1].key), node.members[n - 1].node)
  }

  /** Pre-order over the whole tree, with no name left out. */
  function Everything(prefix: string, node: Node): seq<Entry>
    decreases node, 1
  {
    [Entry(prefix, node.text)] + if node.Map? then EverythingIn(prefix, node, |node.members|) else []
  }

  function EverythingIn(prefix: string, node: Node, n: nat): seq<Entry>
    requires node.Map? && n <= |node.members|
    decreases node, 0, n
  {
    if n == 0 then []
    else EverythingIn(prefix, node, n - 1)
         + Everything(JoinName(prefix, node.members[n - 1].key), node.members[n - 1].node)
  }

  function KeepValid(entries: seq<Entry>): seq<Entry> {
    if entries == [] then []
    else KeepValid(entries[..|entries| - 1])
         + if ValidName(entries[|entries| - 1].name) then [entries[|entries| - 1]] else []
  }

  lemma {:induction false} KeepValidJoin(a: seq<Entry>, b: seq<Entry>)
    ensures KeepValid(a + b) == KeepValid(a) + KeepValid(b)
  {
    if b == [] {
      assert a + b == a;
    } else {
      var front := b[..|b| - 1];
      KeepValidJoin(a, front);
      assert (a + b)[..|a + b| - 1] == a + front;
    }
  }

  lemma {:induction false} KeepValidNone(entries: seq<Entry>)
    requires forall e :: e in entries ==> !ValidName(e.name)
    ensures KeepValid(entries) == []
  {
    if entries != [] {
      KeepValidNone(entries[..|entries| - 1]);
    }
  }

  /** An invalid name stays invalid however it is extended. */
  lemma InvalidBelow(prefix: string, key: string)
    requires !ValidName(prefix)
    ensures !ValidName(JoinName(prefix, key))
  {
    var i :| 0 <= i < |prefix| && prefix[i] !in NAME_CHARS;
    assert JoinName(prefix, key)[i] == prefix[i];
  }

  lemma {:induction false} InvalidSubtree(prefix: string, node: Node)
    requires !ValidName(prefix)
    ensures forall e :: e in Everything(prefix, node) ==> !ValidName(e.name)
    decreases node, 1
  {
    hide ValidName, JoinName;
    if node.Map? {
      InvalidMembers(prefix, node, |node.members|);
    }
  }

  lemma {:induction false} InvalidMembers(prefix: string, node: Node, n: nat)
    requires !ValidName(prefix) && node.Map? && n <= |node.members|
    ensures forall e :: e in EverythingIn(prefix, node, n) ==> !ValidName(e.name)
    decreases node, 0, n
  {
    hide ValidName, JoinName;
    if n != 0 {
      InvalidMembers(prefix, node, n - 1);
      InvalidBelow(prefix, node.members[n - 1].key);
      InvalidSubtree(JoinName(prefix, node.members[n - 1].key), node.members[n - 1].node);
    }
  }

  /** Pruning loses nothing but invalid names: cutting whole subtrees equals filtering the full flattening. */
  lemma {:induction false} PruningIsFiltering(prefix: string, node: Node)
    ensures Flatten(prefix, node) == KeepValid(Everything(prefix, node))
    decreases node, 1
  {
    hide ValidName, JoinName;
    if !ValidName(prefix) {
      InvalidSubtree(prefix, node);
      KeepValidNone(Everything(prefix, node));
    } else {
      var head := [Entry(prefix, node.text)];
      assert KeepValid(head) == head by {
        assert head[..0] == [];
      }
      if node.Map? {
        PruningMembers(prefix, node, |node.members|);
        KeepValidJoin(head, EverythingIn(prefix, node, |node.members|));
      } else {
        assert Everything(prefix, node) == head;
      }
    }
  }

  lemma {:induction false} PruningMembers(prefix: string, node: Node, n: nat)
    requires node.Map? && n <= |node.members|
    ensures FlattenMembers(prefix, node, n) == KeepValid(EverythingIn(prefix, node, n))
    decreases node, 0, n
  {
    hide ValidName, JoinName;
    if n != 0 {
      var name, child := JoinName(prefix, node.members[n - 1].key), node.members[n - 1].node;
      PruningMembers(prefix, node, n - 1);
      PruningIsFiltering(name, child);
      KeepValidJoin(EverythingIn(prefix, node, n - 1), Everything(name, child));
    }
  }

  lemma {:induction false} KeptAreValid(entries: seq<Entry>)
    ensures forall e :: e in KeepValid(entries) ==> ValidName(e.name)
  {
    if entries != [] {
      KeptAreValid(entries[..|entries| - 1]);
    }
  }

  // ------------------------------------------------------------ lower-casing

  function LowerChar(c: char): char {
    if 'A' <= c <= 'Z' then (c as int + 32) as char else c
  }

  function Lower(s: string): (r: string)
    ensures |r| == |s|
    ensures forall i :: 0 <= i < |s| ==> r[i] == LowerChar(s[i])
  {
    if s == "" then "" else Lower(s[..|s| - 1]) + [LowerChar(s[|s| - 1])]
  }

  /** A valid name has no upper-case letter, so the conversion before the lookup never changes a key. */
  lemma LowerOfValid(name: string)
    requires ValidName(name)
    ensures Lower(name) == name
  {
    forall i | 0 <= i < |name|
      ensures LowerChar(name[i]) == name[i]
    {
      assert name[i] in NAME_CHARS;
      CharsAreLower(name[i]);
    }
  }

  lemma CharsAreLower(c: char)
    ensures c in NAME_CHARS <==> 'a' <= c <= 'z' || '0' <= c <= '8' || c == '.' || c == '_'
  {
  }

  predicate DocumentedName(name: string) {
    forall i :: 0 <= i < |name| ==> 'a' <= name[i] <= 'z' || '0' <= name[i] <= '9' || name[i] == '.' || name[i] == '_'
  }

  /** The accepted names are the documented ones without the digit nine. */
  lemma NineIsNotAccepted(name: string)
    ensures ValidName(name) <==> DocumentedName(name) && '9' !in name
  {
    forall i | 0 <= i < |name|
      ensures name[i] in NAME_CHARS <==>
              'a' <= name[i] <= 'z' || '0' <= name[i] <= '8' || name[i] == '.' || name[i] == '_'
    {
      CharsAreLower(name[i]);
    }
    if DocumentedName(name) && '9' !in name {
      forall i | 0 <= i < |name|
        ensures name[i] in NAME_CHARS
      {
        assert name[i] in name;
      }
    }
  }

  // ----------------------------------------------------------------- loading

  function SetFrom(vars: Variables, conv: Conversion, e: Entry): Variables {
    var key := Lower(e.name);
    if e.name == "" || key !in vars || conv(key, e.text).None? then vars
    else vars[key := conv(key, e.text).value]
  }

  function SetAll(vars: Variables, conv: Conversion, entries: seq<Entry>): Variables {
    if entries == [] then vars
    else SetFrom(SetAll(vars, conv, entries[..|entries| - 1]), conv, entries[|entries| - 1])
  }

  function LoadTree(vars: Variables, conv: Conversion, root: Node): Variables {
    SetAll(vars, conv, Flatten("", root))
  }

  /** The value of the last entry of this name whose text converts. */
  function LastValue(entries: seq<Entry>, conv: Conversion, name: string): Option<string> {
    if entries == [] then None
    else
      var e := entries[|entries| - 1];
      if e.name == name && conv(name, e.text).Some? then conv(name, e.text)
      else LastValue(entries[..|entries| - 1], conv, name)
  }

  /** What a tree sets: for each registered name, the value of the last node of that name anywhere in the tree. */
  function Effects(names: set<string>, conv: Conversion, root: Node): Variables {
    map x | x in names && x != "" && ValidName(x) && LastValue(Everything("", root), conv, x).Some?
      :: LastValue(Everything("", root), conv, x).value
  }

  lemma {:induction false} LastValueOfKept(entries: seq<Entry>, conv: Conversion, name: string)
    ensures LastValue(KeepValid(entries), conv, name) ==
            if ValidName(name) then LastValue(entries, conv, name) else None
  {
    hide ValidName;
    if entries != [] {
      var front, e := entries[..|entries| - 1], entries[|entries| - 1];
      LastValueOfKept(front, conv, name);
      if ValidName(e.name) {
        assert (KeepValid(front) + [e])[..|KeepValid(front)|] == KeepValid(front);
      } else {
        assert KeepValid(entries) == KeepValid(front);
      }
    }
  }

  lemma {:induction false} SetAllIsLast(vars: Variables, conv: Conversion, entries: seq<Entry>)
    requires forall e :: e in entries ==> ValidName(e.name)
    ensures SetAll(vars, conv, entries).Keys == vars.Keys
    ensures forall x :: x in vars ==>
      SetAll(vars, conv, entries)[x] ==
        if x != "" && LastValue(entries, conv, x).Some? then LastValue(entries, conv, x).value else vars[x]
  {
    hide ValidName;
    if entries != [] {
      SetAllIsLast(vars, conv, entries[..|entries| - 1]);
      LowerOfValid(entries[|entries| - 1].name);
    }
  }

  /**
   * Loading a tree gives each registered variable the value of the last pre-order node that carries its name and
   * converts, and leaves the others alone.
   */
  lemma LoadingSetsLastValues(vars: Variables, conv: Conversion, root: Node)
    ensures LoadTree(vars, conv, root) == vars + Effects(vars.Keys, conv, root)
    ensures Effects(vars.Keys, conv, root).Keys <= vars.Keys
  {
    hide ValidName, SetAll, LastValue, Flatten, Everything, KeepValid;
    PruningIsFiltering("", root);
    var entries := Flatten("", root);
    KeptAreValid(Everything("", root));
    SetAllIsLast(vars, conv, entries);
    forall x | x in vars
      ensures LoadTree(vars, conv, root)[x] == (vars + Effects(vars.Keys, conv, root))[x]
    {
      LastValueOfKept(Everything("", root), conv, x);
    }
  }
}
