/**
 * Three behaviours of remove in src/trie/Trie.java that the natural
 * specification would not have, each exhibited on the semantics of module
 * TrieSemantics, which follows the code as written.
 */
module TrieQuirks {
  import opened Labels
  import opened TrieSemantics
  import opened TrieProperties

  /**
   * The descent of line 218 is taken even when the match stopped inside
   * the label: with "abc" and "abcxy" stored, removing "abxy", which is not
   * stored, matches "ab", descends along 'x' and detaches the leaf of
   * "abcxy".
   */
  lemma AbsentRemovalDeletesAnother()
    ensures var t := Inserted(Inserted(Empty, "abc"), "abcxy");
      && Words(t) == {"abc", "abcxy"}
      && Words(RemovedFromRoot(t, "abxy")) == {"abc"}
  {
    AbcWords();
    AbcTree();
    AbcAfterAbsentRemoval();
    LeafWords("abc");
  }

  /** "abc" and "abcxy" are what the two insertions store. */
  lemma AbcWords()
    ensures Words(Inserted(Inserted(Empty, "abc"), "abcxy")) == {"abc", "abcxy"}
  {
    EmptyWords();
    InsertWords(Empty, "abc");
    InsertWords(Inserted(Empty, "abc"), "abcxy");
  }

  /** A terminal leaf stores its label and nothing else. */
  lemma LeafWords(w: seq<char>)
    ensures Words(Node(w, map[], true)) == {w}
  {
    forall x ensures x in Words(Node(w, map[], true)) <==> x == w {
      WordsStored(Node(w, map[], true), x);
    }
  }

  /** The tree that stores "abc" and "abcxy". */
  lemma AbcTree()
    ensures Inserted(Inserted(Empty, "abc"), "abcxy")
         == Node("abc", map['x' := Node("y", map[], true)], true)
  {
    CommonPrefixLengthUnique("abc", "abc", 3);
    assert Inserted(Empty, "abc") == Node("abc", map[], true);
    CommonPrefixLengthUnique("abc", "abcxy", 3);
    CommonPrefixLengthUnique("y", "y", 1);
    assert Inserted(Empty, "y") == Node("y", map[], true);
  }

  /** Removing "abxy" from that tree detaches the leaf of "abcxy". */
  lemma AbcAfterAbsentRemoval()
    ensures RemovedFromRoot(Node("abc", map['x' := Node("y", map[], true)], true), "abxy")
         == Node("abc", map[], true)
  {
    CommonPrefixLengthUnique("abc", "abxy", 2);
    CommonPrefixLengthUnique("y", "y", 1);
    var t := Node("abc", map['x' := Node("y", map[], true)], true);
    assert Removed(t.sons['x'], "y", true) == Detached;
    assert t.sons - {'x'} == map[];
  }

  /**
   * A root leaf has no parent, so removing the word spelled by its label
   * only clears its flag (line 199): the label stays visible to startsWith
   * although no word is stored any more.
   */
  lemma RootLabelOutlivesItsWord(w: seq<char>)
    requires |w| > 0
    ensures Words(Inserted(Empty, w)) == {w}
    ensures RemovedFromRoot(Inserted(Empty, w), w) == Node(w, map[], false)
    ensures Words(RemovedFromRoot(Inserted(Empty, w), w)) == {}
    ensures Reach(RemovedFromRoot(Inserted(Empty, w), w)) == Prefixes(w)
  {
    EmptyWords();
    InsertWords(Empty, w);
    CommonPrefixLengthUnique(w, w, |w|);
    assert Inserted(Empty, w) == Node(w, map[], true);
    var r := Node(w, map[], false);
    forall x ensures x !in Words(r) {
      WordsStored(r, x);
    }
    forall x ensures x in Reach(r) <==> x in Prefixes(w) {
      ReachSpelled(r, x);
      PrefixesAt(w, x);
    }
  }

  /**
   * A leaf detach (line 200) leaves its parent as it is: with "ax" and "ay"
   * stored, removing "ax" leaves a non-terminal node with a single son,
   * which is not fused.
   */
  lemma DetachLeavesSingleSon()
    ensures var t := Inserted(Inserted(Empty, "ax"), "ay");
      && t == Node("a", map['x' := Node("", map[], true), 'y' := Node("", map[], true)], false)
      && RemovedFromRoot(t, "ax") == Node("a", map['y' := Node("", map[], true)], false)
  {
    var leaf := Node("", map[], true);
    CommonPrefixLengthUnique("ax", "ax", 2);
    assert Inserted(Empty, "ax") == Node("ax", map[], true);
    CommonPrefixLengthUnique("ax", "ay", 1);
    CommonPrefixLengthUnique([], [], 0);
    assert Inserted(Empty, "") == leaf;
    assert Split(Node("ax", map[], true), 1, false) == Node("a", map['x' := leaf], false);
    CommonPrefixLengthUnique("a", "ax", 1);
    CommonPrefixLengthUnique("", "", 0);
    assert map['x' := leaf]['y' := leaf] == map['x' := leaf, 'y' := leaf];
    assert map['x' := leaf, 'y' := leaf] - {'x'} == map['y' := leaf];
  }
}
