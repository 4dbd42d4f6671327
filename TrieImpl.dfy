/**
 * The heap objects of src/trie/Trie.java: `TrieNode`, whose label, map of
 * sons and terminal flag are updated in place by insert and remove, and
 * `Trie`, the wrapper around the root node. `n.Valid(m)` says that node `n`
 * and the nodes below it spell the value `m` of module TrieSemantics; each
 * method is proved to leave its node spelling the value that the functions
 * of that module compute from the value it spelled before.
 */
module TrieImpl {
  import opened Labels
  import opened TrieSemantics
  import opened TrieProperties

  /** A Java reference that may be null. */
  datatype Option<T> = None | Some(value: T)

  class TrieNode {
    var content: seq<char>
    var sons: map<char, TrieNode>
    var endNode: bool

    ghost var Repr: set<object>

    /**
     * The node owns its sons, the sons own disjoint parts of the heap, and
     * label, flag and keys are those of `m`, each son spelling the value
     * `m` has under its key.
     */
    ghost predicate Valid(m: Node)
      reads this, Repr
      decreases Repr
    {
      && this in Repr
      && m.content == content
      && m.endNode == endNode
      && m.sons.Keys == sons.Keys
      && (forall k | k in sons ::
            && sons[k] in Repr
            && sons[k].Repr <= Repr
            && this !in sons[k].Repr
            && sons[k].Valid(m.sons[k]))
      && (forall k, k' | k in sons && k' in sons && k != k' :: sons[k].Repr !! sons[k'].Repr)
    }

    /** An empty label, no sons, not terminal (lines 99-103). */
    constructor()
      ensures Valid(Empty) && fresh(Repr)
    {
      content := [];
      sons := map[];
      endNode := false;
      Repr := {this};
    }

    /**
     * insert(word, idx, true) (lines 128-167): the bootstrap case of lines
     * 129-138, then the general case, which treats the bootstrapped node
     * as the original one.
     */
    method Insert(word: seq<char>, idx: nat, ghost m: Node)
      requires Valid(m) && idx <= |word|
      modifies Repr
      ensures Valid(Inserted(m, word[idx..])) && fresh(Repr - old(Repr))
      decreases |word| - idx, 4
    {
      ghost var m1 := m;
      if |content| == 0 && idx < |word| && |sons| == 0 {
        m1 := Bootstrap(word, idx, m);
      }
      BootstrapOnce(m, word[idx..]);
      InsertMatched(word, idx, m1);
    }

    /**
     * The bootstrap case (lines 129-138): an empty leaf that is not
     * terminal takes the rest of the word as its label; a terminal one
     * inserts the rest after its first character into a new son.
     */
    method Bootstrap(word: seq<char>, idx: nat, ghost m: Node) returns (ghost m1: Node)
      requires Valid(m) && idx < |word| && Bootstraps(m, word[idx..])
      modifies Repr
      ensures m1 == Bootstrapped(m, word[idx..])
      ensures Valid(m1) && fresh(Repr - old(Repr))
      decreases |word| - idx, 2
    {
      ghost var w := word[idx..];
      if !endNode {
        Relabel(word[idx..], m);
        m1 := Node(w, m.sons, true);
      } else {
        assert word[idx + 1..] == w[1..];
        InsertIntoSon(word, idx, m);
        m1 := InsertedIntoSon(m, w[0], w[1..]);
      }
    }

    /** Lines 130-131: the whole rest of the word becomes a terminal label. */
    method Relabel(c: seq<char>, ghost m: Node)
      requires Valid(m)
      modifies this
      ensures Valid(Node(c, m.sons, true)) && Repr == old(Repr)
    {
      content := c;
      endNode := true;
      Relabeled(this, m, c, true);
    }

    /**
     * The general case of insert (lines 139-166), on a node the bootstrap
     * case does not apply to: match the label, split it where the match
     * stopped, then insert the rest of the word below or set the flag.
     */
    method InsertMatched(word: seq<char>, idx: nat, ghost m: Node)
      requires Valid(m) && idx <= |word| && !Bootstraps(m, word[idx..])
      modifies Repr
      ensures Valid(Inserted(m, word[idx..])) && fresh(Repr - old(Repr))
      decreases |word| - idx, 3
    {
      var i := MatchLength(content, word, idx);
      var at := idx + i;
      InsertedAfterMatch(m, word, idx, at);
      ghost var m2 := if i < |m.content| then Split(m, i, at == |word|) else m;
      if i < |content| {
        SplitAt(i, at == |word|, m);
      }
      InsertRest(word, at, m2);
    }

    /**
     * Lines 155-166: the rest of the word goes to a son, or, when nothing
     * is left, the node becomes terminal.
     */
    method InsertRest(word: seq<char>, at: nat, ghost m: Node)
      requires Valid(m) && at <= |word|
      modifies Repr
      ensures Valid(if at < |word| then InsertedIntoSon(m, word[at], word[at + 1..]) else m.(endNode := true))
      ensures fresh(Repr - old(Repr))
      decreases |word| - at, 2
    {
      if at < |word| {
        InsertIntoSon(word, at, m);
      } else {
        endNode := true;
        Relabeled(this, m, content, true);
      }
    }

    /**
     * The split of lines 144-154: a fresh son takes over the label after
     * position `i`, the old sons and the old flag.
     */
    method SplitAt(i: nat, endHere: bool, ghost m: Node)
      requires Valid(m) && i < |content|
      modifies this
      ensures Valid(Split(m, i, endHere)) && fresh(Repr - old(Repr))
    {
      var contentMidPoint := content[i];
      var son := Tail(i);
      sons := map[contentMidPoint := son];
      content := content[..i];
      endNode := endHere;
      Repr := Repr + {son};
      SplitValid(this, son, i, endHere, m);
    }

    /**
     * Lines 146-149: a fresh node with the label after position `i`, the
     * sons and the flag of this one, owning what this one owns.
     */
    method Tail(i: nat) returns (son: TrieNode)
      requires i < |content|
      ensures fresh(son)
      ensures && son.content == content[i + 1..]
              && son.sons == sons
              && son.endNode == endNode
              && son.Repr == Repr - {this} + {son}
    {
      son := new TrieNode();
      son.content := content[i + 1..];
      son.sons := sons;
      son.endNode := endNode;
      son.Repr := Repr - {this} + {son};
    }

    /**
     * The son insertion of lines 155-163: the son keyed word[at], created
     * when it is missing, receives the rest of the word.
     */
    method InsertIntoSon(word: seq<char>, at: nat, ghost m: Node)
      requires Valid(m) && at < |word|
      modifies Repr
      ensures Valid(InsertedIntoSon(m, word[at], word[at + 1..])) && fresh(Repr - old(Repr))
      decreases |word| - at, 1
    {
      var wordMidPoint := word[at];
      var wordInsertionPoint: TrieNode? := if wordMidPoint in sons then sons[wordMidPoint] else null;
      if wordInsertionPoint == null {
        wordInsertionPoint := new TrieNode();
        sons := sons[wordMidPoint := wordInsertionPoint];
        Repr := Repr + wordInsertionPoint.Repr;
        SonAdded(this, wordInsertionPoint, wordMidPoint, m);
      }
      IntoSon(word, at, wordInsertionPoint, WithSon(m, wordMidPoint));
      IntoSonAttached(m, wordMidPoint, word[at + 1..]);
    }

    /** Line 162: the son keyed word[at] receives the rest of the word. */
    method IntoSon(word: seq<char>, at: nat, son: TrieNode, ghost m: Node)
      requires Valid(m) && at < |word| && word[at] in sons && sons[word[at]] == son
      modifies Repr
      ensures Valid(m.(sons := m.sons[word[at] := Inserted(m.sons[word[at]], word[at + 1..])]))
      ensures fresh(Repr - old(Repr))
      decreases |word| - at, 0
    {
      son.Insert(word, at + 1, m.sons[word[at]]);
      Repr := Repr + son.Repr;
      SonReplaced(this, word[at], m, Inserted(m.sons[word[at]], word[at + 1..]));
    }

    /**
     * remove(word, idx, parent, parentKey) (lines 191-224): after the label
     * match, a word that ends exactly here is removed here, and a word with
     * characters left is handed to the son keyed by the next one.
     */
    method Remove(word: seq<char>, idx: nat, parent: TrieNode?, parentKey: Option<char>, ghost m: Node)
      requires Valid(m) && idx <= |word|
      requires parent != null ==> parent !in Repr
      modifies Repr, (if parent == null then {} else {parent})`sons
      ensures Repr == old(Repr)
      ensures var r := Removed(m, word[idx..], parent != null && parentKey.Some?);
        && (r.Detached? ==> unchanged(Repr) && parent.sons == old(parent.sons) - {parentKey.value})
        && (r.Kept? ==> Valid(r.node) && (parent != null ==> parent.sons == old(parent.sons)))
      decreases |word| - idx, 1
    {
      ghost var w := word[idx..];
      var i := MatchLength(content, word, idx);
      var at := idx + i;
      if i == |content| && at == |word| {
        RemovedAtEnd(m, w, parent != null && parentKey.Some?, i);
        if endNode {
          RemoveHere(parent, parentKey, m);
        }
      } else if at < |word| {
        assert w[i] == word[at] && w[i + 1..] == word[at + 1..];
        RemovedDescends(m, w, parent != null && parentKey.Some?, i, word[at + 1..]);
        RemoveBelow(word, at, m);
      } else {
        RemovedAtEnd(m, w, parent != null && parentKey.Some?, i);
      }
    }

    /**
     * Lines 198-217: the word ends exactly at this terminal node. A leaf
     * with a parent leaves the parent's map, a node with one son absorbs
     * it, and any other node clears its flag.
     */
    method RemoveHere(parent: TrieNode?, parentKey: Option<char>, ghost m: Node)
      requires Valid(m) && endNode
      requires parent != null ==> parent !in Repr
      modifies this, (if parent == null then {} else {parent})`sons
      ensures Repr == old(Repr)
      ensures var r := Removed(m, m.content, parent != null && parentKey.Some?);
        && (r.Detached? ==> unchanged(Repr) && parent.sons == old(parent.sons) - {parentKey.value})
        && (r.Kept? ==> Valid(r.node) && (parent != null ==> parent.sons == old(parent.sons)))
    {
      CommonPrefixLengthUnique(m.content, m.content, |m.content|);
      if |sons| == 0 && parent != null && parentKey.Some? {
        parent.sons := parent.sons - {parentKey.value};
      } else if |sons| == 1 {
        Fuse(m);
      } else {
        endNode := false;
        Relabeled(this, m, content, false);
      }
    }

    /**
     * Lines 218-222: the son keyed word[at], when there is one, removes the
     * rest of the word with this node as its parent.
     */
    method RemoveBelow(word: seq<char>, at: nat, ghost m: Node)
      requires Valid(m) && at < |word|
      modifies Repr
      ensures Repr == old(Repr)
      ensures word[at] !in m.sons ==> Valid(m)
      ensures word[at] in m.sons ==> var r := Removed(m.sons[word[at]], word[at + 1..], true);
        && (r.Detached? ==> Valid(m.(sons := m.sons - {word[at]})))
        && (r.Kept? ==> Valid(m.(sons := m.sons[word[at] := r.node])))
      decreases |word| - at, 0
    {
      var key := word[at];
      var nextNode := if key in sons then sons[key] else null;
      if nextNode != null {
        nextNode.Remove(word, at + 1, this, Some(key), m.sons[key]);
        ghost var r := Removed(m.sons[key], word[at + 1..], true);
        if r.Detached? {
          SonDropped(this, key, m);
        } else {
          SonReplaced(this, key, m, r.node);
        }
      }
    }

    /**
     * The fusion of lines 201-213: the node's label grows by the key and
     * the sole son's label, and the node takes over that son's sons and
     * flag.
     */
    method Fuse(ghost m: Node)
      requires Valid(m) && |sons| == 1
      modifies this
      ensures Valid(Fused(m)) && Repr == old(Repr)
    {
      var nextChar :| nextChar in sons;
      var fusionNode := sons[nextChar];
      var fusionedContent := FuseLabel(content, nextChar, fusionNode.content);
      sons := sons - {nextChar};
      content := fusionedContent;
      sons := PutAll(sons, fusionNode.sons);
      endNode := fusionNode.endNode;
      FusedValid(this, nextChar, fusionNode, m);
    }

    /**
     * search(word, idx) (lines 250-266): the node where the rest of the
     * word ends, when the walk finds it stored.
     */
    method Search(word: seq<char>, idx: nat, ghost m: Node) returns (found: TrieNode?)
      requires Valid(m) && idx <= |word|
      ensures found != null <==> Found(m, word[idx..])
      ensures found != null ==> found in Repr && found.endNode
      decreases |word| - idx, 1
    {
      var i := MatchLength(content, word, idx);
      var at := idx + i;
      FoundAfterMatch(m, word, idx, i, at);
      if i < |content| {
        found := null;
      } else if at == |word| {
        found := if endNode then this else null;
      } else {
        found := SearchBelow(word, at, m);
      }
    }

    /** Lines 260-262: the son keyed by the next character, if any, searches on. */
    method SearchBelow(word: seq<char>, at: nat, ghost m: Node) returns (found: TrieNode?)
      requires Valid(m) && at < |word|
      ensures found != null <==> word[at] in m.sons && Found(m.sons[word[at]], word[at + 1..])
      ensures found != null ==> found in Repr && found.endNode
      decreases |word| - at, 0
    {
      var nextNode := if word[at] in sons then sons[word[at]] else null;
      if nextNode == null {
        found := null;
      } else {
        found := nextNode.Search(word, at + 1, m.sons[word[at]]);
      }
    }

    /**
     * startsWith(prefix, idx) (lines 291-305): whether the rest of the
     * prefix can be read along the labels from this node.
     */
    method StartsWith(prefix: seq<char>, idx: nat, ghost m: Node) returns (b: bool)
      requires Valid(m) && idx <= |prefix|
      ensures b <==> Readable(m, prefix[idx..])
      decreases |prefix| - idx, 1
    {
      var i := MatchLength(content, prefix, idx);
      var at := idx + i;
      ReadableAfterMatch(m, prefix, idx, i, at);
      if at == |prefix| {
        b := true;
      } else if at < |prefix| && i == |content| {
        b := StartsWithBelow(prefix, at, m);
      } else {
        b := false;
      }
    }

    /** Lines 299-301: the son keyed by the next character, if any, reads on. */
    method StartsWithBelow(prefix: seq<char>, at: nat, ghost m: Node) returns (b: bool)
      requires Valid(m) && at < |prefix|
      ensures b <==> prefix[at] in m.sons && Readable(m.sons[prefix[at]], prefix[at + 1..])
      decreases |prefix| - at, 0
    {
      var nextNode := if prefix[at] in sons then sons[prefix[at]] else null;
      if nextNode == null {
        b := false;
      } else {
        b := nextNode.StartsWith(prefix, at + 1, m.sons[prefix[at]]);
      }
    }
  }

  /** What search decides once the label has been matched. */
  lemma FoundAfterMatch(m: Node, word: seq<char>, idx: nat, i: nat, at: nat)
    requires at == idx + i <= |word|
    requires i == CommonPrefixLength(m.content, word[idx..])
    ensures Found(m, word[idx..]) <==>
      if i < |m.content| then false
      else if at == |word| then m.endNode
      else word[at] in m.sons && Found(m.sons[word[at]], word[at + 1..])
  {
    var w := word[idx..];
    assert |w| == |word| - idx;
    if i == |m.content| && at < |word| {
      assert w[i] == word[at] && w[i + 1..] == word[at + 1..];
    }
  }

  /** What startsWith decides once the label has been matched. */
  lemma ReadableAfterMatch(m: Node, prefix: seq<char>, idx: nat, i: nat, at: nat)
    requires at == idx + i <= |prefix|
    requires i == CommonPrefixLength(m.content, prefix[idx..])
    ensures Readable(m, prefix[idx..]) <==>
      if at == |prefix| then true
      else if i == |m.content| then prefix[at] in m.sons && Readable(m.sons[prefix[at]], prefix[at + 1..])
      else false
  {
    var p := prefix[idx..];
    assert |p| == |prefix| - idx;
    if at < |prefix| && i == |m.content| {
      assert p[i] == prefix[at] && p[i + 1..] == prefix[at + 1..];
    }
  }

  /** What insert does once the bootstrap case is out of the way. */
  lemma InsertedAfterMatch(m: Node, word: seq<char>, idx: nat, at: nat)
    requires idx <= at <= |word| && !Bootstraps(m, word[idx..])
    requires at - idx == CommonPrefixLength(m.content, word[idx..])
    ensures var i := at - idx;
      var m2 := if i < |m.content| then Split(m, i, at == |word|) else m;
      Inserted(m, word[idx..]) ==
        if at < |word| then InsertedIntoSon(m2, word[at], word[at + 1..]) else m2.(endNode := true)
  {
    var w, i := word[idx..], at - idx;
    if at < |word| {
      assert w[i] == word[at] && w[i + 1..] == word[at + 1..];
    }
  }

  /** The node `m` after the lookup of lines 157-161 for `key`. */
  ghost function WithSon(m: Node, key: char): (r: Node)
    ensures key in r.sons && r.sons[key] == (if key in m.sons then m.sons[key] else Empty)
  {
    if key in m.sons then m else m.(sons := m.sons[key := Empty])
  }

  /** Inserting into the son after the lookup is inserting into the son. */
  lemma IntoSonAttached(m: Node, key: char, rest: seq<char>)
    ensures var m1 := WithSon(m, key);
      InsertedIntoSon(m, key, rest) == m1.(sons := m1.sons[key := Inserted(m1.sons[key], rest)])
  {
    var m1 := WithSon(m, key);
    assert m1.sons[key := Inserted(m1.sons[key], rest)] == m.sons[key := Inserted(m1.sons[key], rest)];
  }

  /** Removal of a word that ends while the label is being matched. */
  lemma RemovedAtEnd(m: Node, w: seq<char>, hasParent: bool, i: nat)
    requires i == CommonPrefixLength(m.content, w) && i == |w|
    ensures i == |m.content| ==> w == m.content
    ensures i < |m.content| || !m.endNode ==> Removed(m, w, hasParent) == Kept(m)
  {
  }

  /**
   * Removal of a word with characters left after the label match, read as
   * the three outcomes of the descent.
   */
  lemma RemovedDescends(m: Node, w: seq<char>, hasParent: bool, i: nat, rest: seq<char>)
    requires i == CommonPrefixLength(m.content, w) && i < |w| && rest == w[i + 1..]
    ensures w[i] !in m.sons ==> Removed(m, w, hasParent) == Kept(m)
    ensures w[i] in m.sons ==> var r := Removed(m.sons[w[i]], rest, true);
      && (r.Detached? ==> Removed(m, w, hasParent) == Kept(m.(sons := m.sons - {w[i]})))
      && (r.Kept? ==> Removed(m, w, hasParent) == Kept(m.(sons := m.sons[w[i] := r.node])))
  {
    assert Removed(m, w, hasParent) == Descended(m, w[i], rest);
  }

  // Two-state lemmas: a node that spelled `m` before a local change spells
  // the changed value after it. Every parameter is declared `new`, with the
  // objects and values that must already exist named in `old(allocated(..))`:
  // with --warn-contradictory-assumptions, Dafny 4.11 fails on a call to a
  // two-state lemma whose parameters are checked for allocation in the old
  // state ("named expression already defined").

  /** Label and flag replaced, sons and footprint kept. */
  twostate lemma Relabeled(new n: TrieNode, new m: Node, new c: seq<char>, new e: bool)
    requires old(allocated(n)) && old(allocated(m)) && old(n.Valid(m))
    requires n.content == c && n.endNode == e && n.sons == old(n.sons)
    requires n.Repr == old(n.Repr) && unchanged(old(n.Repr) - {n})
    ensures n.Valid(Node(c, m.sons, e))
  {
  }

  /** The split of SplitAt: `son` is the fresh node below `n`. */
  twostate lemma SplitValid(new n: TrieNode, new son: TrieNode, new i: nat, new e: bool, new m: Node)
    requires old(allocated(n)) && old(allocated(m)) && old(n.Valid(m)) && i < |old(n.content)| && fresh(son)
    requires && son.content == old(n.content)[i + 1..]
             && son.sons == old(n.sons)
             && son.endNode == old(n.endNode)
             && son.Repr == old(n.Repr) - {n} + {son}
    requires && n.content == old(n.content)[..i]
             && n.sons == map[old(n.content)[i] := son]
             && n.endNode == e
             && n.Repr == old(n.Repr) + {son}
    requires unchanged(old(n.Repr) - {n})
    ensures n.Valid(Split(m, i, e))
  {
    assert son.Valid(m.(content := m.content[i + 1..]));
  }

  /** A fresh empty son added under a new key. */
  twostate lemma SonAdded(new n: TrieNode, new son: TrieNode, new key: char, new m: Node)
    requires old(allocated(n)) && old(allocated(m)) && old(n.Valid(m)) && key !in old(n.sons)
    requires son.Valid(Empty) && fresh(son.Repr)
    requires n.sons == old(n.sons)[key := son] && n.content == old(n.content) && n.endNode == old(n.endNode)
    requires n.Repr == old(n.Repr) + son.Repr && unchanged(old(n.Repr) - {n})
    ensures n.Valid(m.(sons := m.sons[key := Empty]))
  {
  }

  /** The son under `key` changed within its own footprint and now spells `s`. */
  twostate lemma SonReplaced(new n: TrieNode, new key: char, new m: Node, new s: Node)
    requires old(allocated(n)) && old(allocated(m)) && old(n.Valid(m)) && key in old(n.sons)
    requires n.sons == old(n.sons) && n.content == old(n.content) && n.endNode == old(n.endNode)
    requires n.sons[key].Valid(s) && fresh(n.sons[key].Repr - old(n.sons[key].Repr))
    requires unchanged(old(n.Repr) - old(n.sons[key].Repr) - {n})
    requires n.Repr == old(n.Repr) + n.sons[key].Repr
    ensures n.Valid(m.(sons := m.sons[key := s]))
  {
  }

  /** The son under `key` left the map. */
  twostate lemma SonDropped(new n: TrieNode, new key: char, new m: Node)
    requires old(allocated(n)) && old(allocated(m)) && old(n.Valid(m)) && key in old(n.sons)
    requires n.sons == old(n.sons) - {key} && n.content == old(n.content) && n.endNode == old(n.endNode)
    requires n.Repr == old(n.Repr) && unchanged(old(n.Repr) - {n})
    ensures n.Valid(m.(sons := m.sons - {key}))
  {
  }

  /** The sole son `son` under `key` merged into `n`. */
  twostate lemma FusedValid(new n: TrieNode, new key: char, new son: TrieNode, new m: Node)
    requires old(allocated(n)) && old(allocated(m)) && old(n.Valid(m)) && |old(n.sons)| == 1 && key in old(n.sons) && old(n.sons[key]) == son
    requires n.content == old(n.content) + [key] + son.content
    requires n.sons == (old(n.sons) - {key}) + son.sons
    requires n.endNode == son.endNode && n.Repr == old(n.Repr)
    requires unchanged(old(n.Repr) - {n})
    ensures n.Valid(Fused(m))
  {
    SoleKey(old(n.sons), key);
    assert old(n.sons) - {key} == map[];
    assert n.sons == son.sons;
    assert m.sons.Keys == {key};
    FusedAt(m, key);
    assert son.Valid(m.sons[key]);
  }

  /** The trie: a root node that is never replaced (lines 14-67). */
  class Trie {
    const root: TrieNode
    ghost var model: Node

    /** The root spells the trie's value; the trie object is not part of the nodes. */
    ghost predicate Valid()
      reads this, root, root.Repr
    {
      this !in root.Repr && root.Valid(model)
    }

    /** The stored words. */
    ghost function Contents(): set<seq<char>>
      reads this
    {
      Words(model)
    }

    /** The prefixes startsWith accepts. */
    ghost function Visible(): set<seq<char>>
      reads this
    {
      Reach(model)
    }

    /** A new trie stores nothing and shows only the empty prefix (lines 24-26). */
    constructor()
      ensures Valid() && fresh(root.Repr) && model == Empty
      ensures Contents() == {} && Visible() == {[]}
    {
      root := new TrieNode();
      model := Empty;
      new;
      EmptyWords();
    }

    /** insert (lines 33-35 and 111-115): exactly `word` is added. */
    method Insert(word: seq<char>)
      requires Valid()
      modifies this, root.Repr
      ensures Valid() && fresh(root.Repr - old(root.Repr))
      ensures model == Inserted(old(model), word)
      ensures Contents() == old(Contents()) + {word}
      ensures Visible() == old(Visible()) + Prefixes(word)
    {
      ghost var m := model;
      model := Inserted(m, word);
      assert word[0..] == word;
      root.Insert(word, 0, m);
      InsertWords(m, word);
      InsertReach(m, word);
    }

    /**
     * remove (lines 42-44 and 175-179): nothing is ever added, and a stored
     * word is the only word that goes.
     */
    method Remove(word: seq<char>)
      requires Valid()
      modifies this, root.Repr
      ensures Valid() && root.Repr == old(root.Repr)
      ensures model == RemovedFromRoot(old(model), word)
      ensures Contents() <= old(Contents()) && Visible() <= old(Visible())
      ensures old(word in Contents()) ==> Contents() == old(Contents()) - {word}
    {
      ghost var m := model;
      model := RemovedFromRoot(m, word);
      assert word[0..] == word;
      root.Remove(word, 0, null, None, m);
      RemoveShrinks(m, word);
      if word in Words(m) {
        RemoveWords(m, word);
      }
    }

    /** search (lines 52-54 and 233-238). */
    method Search(word: seq<char>) returns (b: bool)
      requires Valid()
      ensures b <==> word in Contents()
    {
      FoundWords(model, word);
      assert word[0..] == word;
      var found := root.Search(word, 0, model);
      b := found != null;
    }

    /** startsWith (lines 64-66 and 275-280). */
    method StartsWith(prefix: seq<char>) returns (b: bool)
      requires Valid()
      ensures b <==> prefix in Visible()
    {
      ReadableReach(model, prefix);
      assert prefix[0..] == prefix;
      b := root.StartsWith(prefix, 0, model);
    }
  }
}
