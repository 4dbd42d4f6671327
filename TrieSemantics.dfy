/**
 * Value-level semantics of the compact trie of src/trie/Trie.java.
 *
 * A node is its label (`content`), its sons keyed by the character that
 * follows the label, and its terminal flag (`endNode`). `Words(n)` is the set
 * of words spelled along paths from `n` to a terminal node: a node's label,
 * then a key, then the son's words. `Reach(n)` is every prefix of every
 * string spelled along such a path, terminal or not, which is what
 * `startsWith` inspects.
 *
 * `Inserted` and `Removed` follow the Java methods branch by branch; the
 * heap classes of module TrieImpl are proved to compute exactly these
 * values, and the lemmas of module TrieProperties state what they mean
 * for `Words` and `Reach`.
 */
module TrieSemantics {
  import opened Labels

  datatype Node = Node(content: seq<char>, sons: map<char, Node>, endNode: bool)

  /** A freshly constructed TrieNode: empty label, no sons, not terminal. */
  const Empty := Node([], map[], false)

  /** The words stored in the subtree of `n`, relative to `n`. */
  ghost function Words(n: Node): set<seq<char>>
    decreases n
  {
    (if n.endNode then {n.content} else {})
    + (set k, w | k in n.sons && w in Words(n.sons[k]) :: n.content + [k] + w)
  }

  /** Every prefix of `s`, the empty one and `s` itself included. */
  ghost function Prefixes(s: seq<char>): set<seq<char>>
  {
    set j | 0 <= j <= |s| :: s[..j]
  }

  /** Every prefix of every string spelled from `n` downwards. */
  ghost function Reach(n: Node): set<seq<char>>
    decreases n
  {
    Prefixes(n.content)
    + (set k, p | k in n.sons && p in Reach(n.sons[k]) :: n.content + [k] + p)
  }

  /**
   * Membership in `Words` read one level at a time: `w` is the label of a
   * terminal node, or the label, a key and a word stored below that key.
   */
  ghost predicate Stores(n: Node, w: seq<char>)
    decreases n
  {
    || (n.endNode && w == n.content)
    || (&& |n.content| < |w|
        && w[..|n.content|] == n.content
        && w[|n.content|] in n.sons
        && Stores(n.sons[w[|n.content|]], w[|n.content| + 1..]))
  }

  /** Membership in `Reach` read one level at a time. */
  ghost predicate Spells(n: Node, p: seq<char>)
    decreases n
  {
    || p <= n.content
    || (&& |n.content| < |p|
        && p[..|n.content|] == n.content
        && p[|n.content|] in n.sons
        && Spells(n.sons[p[|n.content|]], p[|n.content| + 1..]))
  }

  /**
   * search (lines 250-266) read on values: match the label against `w`;
   * a mismatch inside the label means absent, an exhausted word leaves the
   * answer to the flag, and otherwise the son keyed by the next character
   * is asked for the rest.
   */
  ghost predicate Found(n: Node, w: seq<char>)
    decreases n
  {
    var i := CommonPrefixLength(n.content, w);
    if i < |n.content| then false
    else if i == |w| then n.endNode
    else w[i] in n.sons && Found(n.sons[w[i]], w[i + 1..])
  }

  /**
   * startsWith (lines 291-305) read on values: an exhausted prefix is
   * accepted, and a prefix that goes past the whole label is handed to the
   * son keyed by its next character.
   */
  ghost predicate Readable(n: Node, p: seq<char>)
    decreases n
  {
    var i := CommonPrefixLength(n.content, p);
    if i == |p| then true
    else if i == |n.content| then p[i] in n.sons && Readable(n.sons[p[i]], p[i + 1..])
    else false
  }

  lemma PrefixesAt(s: seq<char>, p: seq<char>)
    ensures p in Prefixes(s) <==> p <= s
  {
    if p <= s {
      assert p == s[..|p|];
    }
  }

  lemma WordsAt(n: Node, w: seq<char>)
    ensures w in Words(n) <==>
      || (n.endNode && w == n.content)
      || (&& |n.content| < |w|
          && w[..|n.content|] == n.content
          && w[|n.content|] in n.sons
          && w[|n.content| + 1..] in Words(n.sons[w[|n.content|]]))
  {
    var c := n.content;
    if w in Words(n) && !(n.endNode && w == c) {
      var k, x :| k in n.sons && x in Words(n.sons[k]) && w == c + [k] + x;
      assert w[..|c|] == c && w[|c|] == k && w[|c| + 1..] == x;
    }
    if |c| < |w| && w[..|c|] == c && w[|c|] in n.sons
       && w[|c| + 1..] in Words(n.sons[w[|c|]]) {
      assert w == c + [w[|c|]] + w[|c| + 1..];
    }
  }

  lemma ReachAt(n: Node, p: seq<char>)
    ensures p in Reach(n) <==>
      || p <= n.content
      || (&& |n.content| < |p|
          && p[..|n.content|] == n.content
          && p[|n.content|] in n.sons
          && p[|n.content| + 1..] in Reach(n.sons[p[|n.content|]]))
  {
    var c := n.content;
    PrefixesAt(c, p);
    if p in Reach(n) && p !in Prefixes(c) {
      var k, x :| k in n.sons && x in Reach(n.sons[k]) && p == c + [k] + x;
      assert p[..|c|] == c && p[|c|] == k && p[|c| + 1..] == x;
    }
    if |c| < |p| && p[..|c|] == c && p[|c|] in n.sons
       && p[|c| + 1..] in Reach(n.sons[p[|c|]]) {
      assert p == c + [p[|c|]] + p[|c| + 1..];
    }
  }

  /** `Stores` decides membership in `Words`. */
  lemma {:induction false} WordsStored(n: Node, w: seq<char>)
    ensures w in Words(n) <==> Stores(n, w)
    decreases n
  {
    WordsAt(n, w);
    var c := n.content;
    if |c| < |w| && w[|c|] in n.sons {
      WordsStored(n.sons[w[|c|]], w[|c| + 1..]);
    }
  }

  /** `Spells` decides membership in `Reach`. */
  lemma {:induction false} ReachSpelled(n: Node, p: seq<char>)
    ensures p in Reach(n) <==> Spells(n, p)
    decreases n
  {
    ReachAt(n, p);
    var c := n.content;
    if |c| < |p| && p[|c|] in n.sons {
      ReachSpelled(n.sons[p[|c|]], p[|c| + 1..]);
    }
  }

  /** Branch taken by the bootstrap case of insert (line 129). */
  predicate Bootstraps(n: Node, w: seq<char>)
  {
    |n.content| == 0 && 0 < |w| && |n.sons| == 0
  }

  /**
   * The bootstrap case of insert (lines 129-137): an empty terminal-free
   * leaf takes the whole word as its label, and a terminal one hands the
   * word to a son.
   */
  ghost function Bootstrapped(n: Node, w: seq<char>): Node
    decreases |w|, 1
  {
    if Bootstraps(n, w) then
      if !n.endNode then Node(w, n.sons, true)
      else InsertedIntoSon(n, w[0], w[1..])
    else n
  }

  /**
   * insert(word, idx, true) at node `n`, where `w` is word[idx..]
   * (lines 128-167). The bootstrap case falls through to the general
   * case, so in its second branch the new son is descended into twice.
   */
  ghost function Inserted(n: Node, w: seq<char>): Node
    decreases |w|, 2
  {
    var n1 := Bootstrapped(n, w);
    var i := CommonPrefixLength(n1.content, w);
    var n2 := if i < |n1.content| then Split(n1, i, i == |w|) else n1;
    var n3 := if i < |w| then InsertedIntoSon(n2, w[i], w[i + 1..]) else n2;
    if i == |w| then n3.(endNode := true) else n3
  }

  /**
   * Inserting `rest` into the son keyed `key`, creating an empty son first
   * when there is none (lines 134-136 and 155-163).
   */
  ghost function InsertedIntoSon(n: Node, key: char, rest: seq<char>): Node
    decreases |rest| + 1, 0
  {
    var son := if key in n.sons then n.sons[key] else Empty;
    n.(sons := n.sons[key := Inserted(son, rest)])
  }

  /**
   * The label split of lines 144-154: the node keeps content[..i], and its
   * only son, keyed content[i], takes the rest of the label, the old sons
   * and the old terminal flag.
   */
  ghost function Split(n: Node, i: nat, endHere: bool): Node
    requires i < |n.content|
  {
    Node(n.content[..i],
         map[n.content[i] := Node(n.content[i + 1..], n.sons, n.endNode)],
         endHere)
  }

  /**
   * The fusion of lines 201-213: a node with exactly one son absorbs it,
   * its label becoming its own label, the key and the son's label.
   */
  ghost function Fused(n: Node): Node
    requires |n.sons| == 1
  {
    assert n.sons.Keys != {};
    var key :| key in n.sons;
    var son := n.sons[key];
    Node(n.content + [key] + son.content, son.sons, son.endNode)
  }

  /**
   * What remove hands back to the node above it: either the node leaves
   * its parent's map (line 200) or it stays, possibly changed.
   */
  datatype Removal = Detached | Kept(node: Node)

  /**
   * remove(word, idx, parent, parentKey) at node `n`, where `w` is
   * word[idx..] and `hasParent` says whether parent and parentKey are both
   * present (lines 191-224). As written, the descent of line 218 is taken
   * whenever the word has characters left, also when the match stopped
   * inside the label.
   */
  ghost function Removed(n: Node, w: seq<char>, hasParent: bool): (r: Removal)
    ensures r.Detached? ==> hasParent && n.sons == map[] && n.endNode
    decreases |w|, 1
  {
    var i := CommonPrefixLength(n.content, w);
    if i == |n.content| && i == |w| then
      if !n.endNode then Kept(n)
      else if |n.sons| == 0 && hasParent then Detached
      else if |n.sons| == 1 then Kept(Fused(n))
      else Kept(n.(endNode := false))
    else if i < |w| then Descended(n, w[i], w[i + 1..])
    else Kept(n)
  }

  /**
   * The descent of lines 218-222: `rest` is removed below the son keyed
   * `key`, if there is one, and the answer is applied to the sons.
   */
  ghost function Descended(n: Node, key: char, rest: seq<char>): (r: Removal)
    ensures r.Kept?
    decreases |rest| + 1, 0
  {
    if key !in n.sons then Kept(n)
    else match Removed(n.sons[key], rest, true)
      case Detached => Kept(n.(sons := n.sons - {key}))
      case Kept(son) => Kept(n.(sons := n.sons[key := son]))
  }

  /** remove called on the root, which has no parent (line 177). */
  ghost function RemovedFromRoot(n: Node, w: seq<char>): Node
  {
    Removed(n, w, false).node
  }

  /** `x` is still stored below the edge a removal answered with. */
  ghost predicate StoresAfter(r: Removal, x: seq<char>)
  {
    r.Kept? && Stores(r.node, x)
  }

  /** `x` is still spelled below the edge a removal answered with. */
  ghost predicate SpellsAfter(r: Removal, x: seq<char>)
  {
    r.Kept? && Spells(r.node, x)
  }
}
