/**
 * What the operations of src/trie/Trie.java mean for the stored words and
 * for the prefixes startsWith can see, proved on the value-level semantics
 * of module TrieSemantics. Each property is first proved for one string at
 * a time on `Stores` and `Spells`, then lifted to `Words` and `Reach`.
 */
module TrieProperties {
  import opened Labels
  import opened TrieSemantics

  /** Sequence facts for reading `x` as a label, a key and a rest. */
  lemma ThroughKey(c: seq<char>, k: char, r: seq<char>, x: seq<char>)
    ensures x == c + [k] + r <==>
      |c| < |x| && x[..|c|] == c && x[|c|] == k && x[|c| + 1..] == r
    ensures x <= c + [k] + r <==>
      x <= c || (|c| < |x| && x[..|c|] == c && x[|c|] == k && x[|c| + 1..] <= r)
  {
    var s := c + [k] + r;
    if |c| < |x| && x[..|c|] == c && x[|c|] == k {
      assert x == x[..|c|] + [x[|c|]] + x[|c| + 1..];
      if |x| <= |s| {
        assert s[..|x|] == c + [k] + r[..|x| - |c| - 1];
      }
    }
    if |x| <= |c| {
      assert s[..|x|] == c[..|x|];
    }
  }

  /** Sequence facts for reading `x` as `q` followed by the rest. */
  lemma RelabelStep(q: seq<char>, c: seq<char>, x: seq<char>)
    requires |q| <= |x|
    ensures var y := x[|q|..];
      && (x == q + c <==> x[..|q|] == q && y == c)
      && (x <= q + c <==> x[..|q|] == q && y <= c)
      && (|q + c| < |x| <==> |c| < |y|)
      && (|c| < |y| ==>
           && (x[..|q + c|] == q + c <==> x[..|q|] == q && y[..|c|] == c)
           && x[|q + c|] == y[|c|]
           && x[|q + c| + 1..] == y[|c| + 1..])
  {
    var y := x[|q|..];
    assert x == x[..|q|] + y;
    if |c| < |y| {
      assert x[..|q + c|] == x[..|q|] + y[..|c|];
    }
    if |y| <= |c| {
      assert (q + c)[..|x|] == q + c[..|y|];
    }
  }

  /** Lengthening a node's label by `q` in front puts `q` before its words. */
  lemma StoresRelabel(q: seq<char>, n: Node, x: seq<char>)
    ensures Stores(n.(content := q + n.content), x) <==>
      |q| <= |x| && x[..|q|] == q && Stores(n, x[|q|..])
  {
    if |q| <= |x| {
      StoresRelabelLong(q, n, x);
    }
  }

  /** The case of StoresRelabel where `x` is at least as long as `q`. */
  lemma StoresRelabelLong(q: seq<char>, n: Node, x: seq<char>)
    requires |q| <= |x|
    ensures Stores(n.(content := q + n.content), x) <==> x[..|q|] == q && Stores(n, x[|q|..])
  {
    var c, y := n.content, x[|q|..];
    var n' := Node(q + c, n.sons, n.endNode);
    assert n' == n.(content := q + n.content);
    RelabelStep(q, c, x);
    if x[..|q|] == q {
      StoresShift(n', n, x, y);
    } else {
      assert x != q + c;
    }
  }

  /**
   * Two nodes with the same sons and flag store `x` and `y` alike when the
   * two strings compare with the two labels alike.
   */
  lemma StoresShift(n': Node, n: Node, x: seq<char>, y: seq<char>)
    requires n'.sons == n.sons && n'.endNode == n.endNode
    requires x == n'.content <==> y == n.content
    requires |n'.content| < |x| <==> |n.content| < |y|
    requires |n.content| < |y| ==>
      && (x[..|n'.content|] == n'.content <==> y[..|n.content|] == n.content)
      && x[|n'.content|] == y[|n.content|]
      && x[|n'.content| + 1..] == y[|n.content| + 1..]
    ensures Stores(n', x) <==> Stores(n, y)
  {
  }

  /** The same for the prefixes: those of `q` itself appear as well. */
  lemma SpellsRelabel(q: seq<char>, n: Node, x: seq<char>)
    ensures Spells(n.(content := q + n.content), x) <==>
      x <= q || (|q| <= |x| && x[..|q|] == q && Spells(n, x[|q|..]))
  {
    if |q| <= |x| {
      SpellsRelabelLong(q, n, x);
      if x <= q {
        assert x[..|q|] == x == q;
      }
    } else {
      SpellsRelabelShort(q, n, x);
    }
  }

  /** A prefix shorter than the new front part is visible iff it is a prefix of it. */
  lemma SpellsRelabelShort(q: seq<char>, n: Node, x: seq<char>)
    requires |x| < |q|
    ensures Spells(n.(content := q + n.content), x) <==> x <= q
  {
    assert (q + n.content)[..|x|] == q[..|x|];
  }

  /** A longer one must start with the front part and be visible below it. */
  lemma SpellsRelabelLong(q: seq<char>, n: Node, x: seq<char>)
    requires |q| <= |x|
    ensures Spells(n.(content := q + n.content), x) <==> x[..|q|] == q && Spells(n, x[|q|..])
  {
    var c, y := n.content, x[|q|..];
    var qc := q + c;
    var n' := Node(qc, n.sons, n.endNode);
    assert n' == n.(content := q + n.content);
    RelabelStep(q, c, x);
    if |c| < |y| && y[|c|] in n.sons {
      var k, rest := y[|c|], y[|c| + 1..];
      assert x[|qc|] == k && x[|qc| + 1..] == rest;
      var below := Spells(n.sons[k], rest);
      assert Spells(n', x) <==> x <= qc || (x[..|qc|] == qc && below);
      assert Spells(n, y) <==> y <= c || (y[..|c|] == c && below);
    } else {
      assert Spells(n', x) <==> x <= qc;
      assert Spells(n, y) <==> y <= c;
    }
  }

  /** A split keeps every word and adds the new node's label when flagged. */
  lemma SplitStores(n: Node, i: nat, e: bool, x: seq<char>)
    requires i < |n.content|
    ensures Stores(Split(n, i, e), x) <==> Stores(n, x) || (e && x == n.content[..i])
  {
    var c := n.content;
    var q := c[..i + 1];
    var son := Node(c[i + 1..], n.sons, n.endNode);
    assert son.(content := q + son.content) == n by {
      assert q + c[i + 1..] == c;
    }
    StoresRelabel(q, son, x);
    if i < |x| {
      assert x[..i + 1] == x[..i] + [x[i]] && q == c[..i] + [c[i]];
    }
  }

  /** A split changes nothing startsWith can see. */
  lemma SplitSpells(n: Node, i: nat, e: bool, x: seq<char>)
    requires i < |n.content|
    ensures Spells(Split(n, i, e), x) <==> Spells(n, x)
  {
    var c := n.content;
    var q := c[..i + 1];
    var son := Node(c[i + 1..], n.sons, n.endNode);
    assert son.(content := q + son.content) == n by {
      assert q + c[i + 1..] == c;
    }
    SpellsRelabel(q, son, x);
    if i < |x| {
      assert x[..i + 1] == x[..i] + [x[i]] && q == c[..i] + [c[i]];
    }
    if |x| <= i {
      assert c[..i][..|x|] == q[..|x|];
    }
  }

  /** The only key of a map with one entry. */
  lemma SoleKey<V>(m: map<char, V>, k: char)
    requires |m| == 1 && k in m
    ensures m.Keys == {k}
  {
    assert |m.Keys - {k}| == 0;
  }

  /** The fused node, spelled out for the sole son `k`. */
  lemma FusedAt(n: Node, k: char)
    requires |n.sons| == 1 && k in n.sons
    ensures Fused(n) == Node(n.content + [k] + n.sons[k].content, n.sons[k].sons, n.sons[k].endNode)
  {
    SoleKey(n.sons, k);
  }

  /** Splitting a fused node where its old label ended gives the node back. */
  lemma SplitUndoesFused(n: Node)
    requires |n.sons| == 1
    ensures |n.content| < |Fused(n).content|
    ensures Split(Fused(n), |n.content|, n.endNode) == n
  {
    var k :| k in n.sons;
    FusedAt(n, k);
    SoleKey(n.sons, k);
    var c, s := n.content, n.sons[k];
    var f := c + [k] + s.content;
    assert f[..|c|] == c && f[|c|] == k && f[|c| + 1..] == s.content;
    assert map[k := Node(s.content, s.sons, s.endNode)] == n.sons;
  }

  /** Fusing a split node gives the node back. */
  lemma FusedUndoesSplit(n: Node, i: nat, e: bool)
    requires i < |n.content|
    ensures |Split(n, i, e).sons| == 1
    ensures Fused(Split(n, i, e)) == n
  {
    var c := n.content;
    FusedAt(Split(n, i, e), c[i]);
    assert c[..i] + [c[i]] + c[i + 1..] == c;
  }

  /** Fusing drops exactly the node's own label from the words. */
  lemma FusedStores(n: Node, x: seq<char>)
    requires |n.sons| == 1
    ensures Stores(Fused(n), x) <==> Stores(n, x) && x != n.content
  {
    SplitUndoesFused(n);
    SplitStores(Fused(n), |n.content|, n.endNode, x);
  }

  /** Fusing changes nothing startsWith can see. */
  lemma FusedSpells(n: Node, x: seq<char>)
    requires |n.sons| == 1
    ensures Spells(Fused(n), x) <==> Spells(n, x)
  {
    SplitUndoesFused(n);
    SplitSpells(Fused(n), |n.content|, n.endNode, x);
  }

  /** Clearing the terminal flag drops exactly the node's own label. */
  lemma ClearedStores(n: Node, x: seq<char>)
    ensures Stores(n.(endNode := false), x) <==> Stores(n, x) && x != n.content
  {
  }

  /** The empty node stores nothing and spells only the empty string. */
  lemma EmptyNode(x: seq<char>)
    ensures !Stores(Empty, x)
    ensures Spells(Empty, x) <==> x == []
  {
  }

  /**
   * One step of search: after matching the label against `w`, a mismatch
   * inside the label means absent, an exhausted word means the flag
   * decides, and otherwise the son keyed by the next character decides.
   */
  lemma StoresStep(n: Node, w: seq<char>)
    ensures var c, i := n.content, CommonPrefixLength(n.content, w);
      Stores(n, w) <==>
        if i < |c| then false
        else if i == |w| then n.endNode
        else w[i] in n.sons && Stores(n.sons[w[i]], w[i + 1..])
  {
    var c, i := n.content, CommonPrefixLength(n.content, w);
    if i < |c| {
      if i < |w| {
        assert w != c;
        if |c| < |w| {
          assert w[..|c|][i] == w[i];
        }
      } else {
        assert |w| < |c|;
      }
    } else {
      assert w[..|c|] == c;
      if i == |w| {
        assert w == c;
      }
    }
  }

  /**
   * One step of startsWith: an exhausted prefix is visible, a mismatch
   * inside the label is not, and otherwise the son keyed by the next
   * character decides.
   */
  lemma SpellsStep(n: Node, p: seq<char>)
    ensures var c, i := n.content, CommonPrefixLength(n.content, p);
      Spells(n, p) <==>
        if i == |p| then true
        else if i == |c| then p[i] in n.sons && Spells(n.sons[p[i]], p[i + 1..])
        else false
  {
    var c, i := n.content, CommonPrefixLength(n.content, p);
    if i == |p| {
      assert p == c[..i];
    } else if i < |c| {
      assert !(p <= c) by {
        if |p| <= |c| {
          assert c[..|p|][i] == c[i];
        }
      }
      if |c| < |p| {
        assert p[..|c|][i] == p[i];
      }
    }
  }

  /** The walk of search decides exactly the stored words. */
  lemma {:induction false} FoundStored(n: Node, w: seq<char>)
    ensures Found(n, w) <==> Stores(n, w)
    decreases n
  {
    StoresStep(n, w);
    var i := CommonPrefixLength(n.content, w);
    if i == |n.content| && i < |w| && w[i] in n.sons {
      FoundStored(n.sons[w[i]], w[i + 1..]);
    }
  }

  /** The walk of startsWith decides exactly the visible prefixes. */
  lemma {:induction false} ReadableSpelled(n: Node, p: seq<char>)
    ensures Readable(n, p) <==> Spells(n, p)
    decreases n
  {
    SpellsStep(n, p);
    var i := CommonPrefixLength(n.content, p);
    if i == |n.content| && i < |p| && p[i] in n.sons {
      ReadableSpelled(n.sons[p[i]], p[i + 1..]);
    }
  }

  /** Inserting into the son keyed `k` adds the word label + k + rest. */
  lemma {:induction false} IntoSonStores(n: Node, k: char, rest: seq<char>, x: seq<char>)
    ensures Stores(InsertedIntoSon(n, k, rest), x) <==> Stores(n, x) || x == n.content + [k] + rest
    decreases |rest| + 1, 0
  {
    var c := n.content;
    var son := if k in n.sons then n.sons[k] else Empty;
    ThroughKey(c, k, rest, x);
    if |c| < |x| && x[..|c|] == c && x[|c|] == k {
      InsertedStores(son, rest, x[|c| + 1..]);
    }
  }

  /**
   * After the bootstrap step the node no longer qualifies for it, so the
   * general case of insert treats the bootstrapped node as it treats the
   * original one.
   */
  lemma BootstrapOnce(n: Node, w: seq<char>)
    ensures !Bootstraps(Bootstrapped(n, w), w) || !Bootstraps(n, w)
    ensures Inserted(Bootstrapped(n, w), w) == Inserted(n, w)
  {
    if Bootstraps(n, w) && n.endNode {
      assert w[0] in Bootstrapped(n, w).sons;
    }
  }

  /** The bootstrap step adds the word exactly when it applies. */
  lemma {:induction false} BootstrappedStores(n: Node, w: seq<char>, x: seq<char>)
    ensures Stores(Bootstrapped(n, w), x) <==> Stores(n, x) || (Bootstraps(n, w) && x == w)
    decreases |w|, 1
  {
    if Bootstraps(n, w) && n.endNode {
      assert n.content + [w[0]] + w[1..] == w;
      IntoSonStores(n, w[0], w[1..], x);
    }
  }

  /** Setting the flag adds the node's label. */
  lemma MarkedStores(n: Node, x: seq<char>)
    ensures Stores(n.(endNode := true), x) <==> Stores(n, x) || x == n.content
  {
  }

  /** Insertion adds exactly the inserted word. */
  lemma {:induction false} InsertedStores(n: Node, w: seq<char>, x: seq<char>)
    ensures Stores(Inserted(n, w), x) <==> Stores(n, x) || x == w
    decreases |w|, 2
  {
    var n1 := Bootstrapped(n, w);
    BootstrappedStores(n, w, x);
    var i := CommonPrefixLength(n1.content, w);
    var n2 := if i < |n1.content| then Split(n1, i, i == |w|) else n1;
    if i < |n1.content| {
      SplitStores(n1, i, i == |w|, x);
    }
    assert n2.content == w[..i];
    if i < |w| {
      assert w[..i] + [w[i]] + w[i + 1..] == w;
      IntoSonStores(n2, w[i], w[i + 1..], x);
    } else {
      MarkedStores(n2, x);
    }
  }

  /** Inserting into the son keyed `k` adds the prefixes of label + k + rest. */
  lemma {:induction false} IntoSonSpells(n: Node, k: char, rest: seq<char>, x: seq<char>)
    ensures Spells(InsertedIntoSon(n, k, rest), x) <==> Spells(n, x) || x <= n.content + [k] + rest
    decreases |rest| + 1, 0
  {
    var c := n.content;
    var son := if k in n.sons then n.sons[k] else Empty;
    ThroughKey(c, k, rest, x);
    if |c| < |x| && x[..|c|] == c && x[|c|] == k {
      InsertedSpells(son, rest, x[|c| + 1..]);
    }
  }

  /** The bootstrap step adds the prefixes of the word exactly when it applies. */
  lemma {:induction false} BootstrappedSpells(n: Node, w: seq<char>, x: seq<char>)
    ensures Spells(Bootstrapped(n, w), x) <==> Spells(n, x) || (Bootstraps(n, w) && x <= w)
    decreases |w|, 1
  {
    if Bootstraps(n, w) && n.endNode {
      assert n.content + [w[0]] + w[1..] == w;
      IntoSonSpells(n, w[0], w[1..], x);
    }
  }

  /** The flag is invisible to startsWith. */
  lemma FlagSpells(n: Node, e: bool, x: seq<char>)
    ensures Spells(n.(endNode := e), x) <==> Spells(n, x)
  {
  }

  /** Insertion makes exactly the prefixes of the inserted word visible. */
  lemma {:induction false} InsertedSpells(n: Node, w: seq<char>, x: seq<char>)
    ensures Spells(Inserted(n, w), x) <==> Spells(n, x) || x <= w
    decreases |w|, 2
  {
    var n1 := Bootstrapped(n, w);
    BootstrappedSpells(n, w, x);
    var i := CommonPrefixLength(n1.content, w);
    var n2 := if i < |n1.content| then Split(n1, i, i == |w|) else n1;
    if i < |n1.content| {
      SplitSpells(n1, i, i == |w|, x);
    }
    assert n2.content == w[..i];
    if i < |w| {
      assert w[..i] + [w[i]] + w[i + 1..] == w;
      IntoSonSpells(n2, w[i], w[i + 1..], x);
    } else {
      FlagSpells(n2, true, x);
      assert x <= w ==> x <= n2.content;
    }
  }

  /** Removal, of a stored word or not, never adds a word or a visible prefix. */
  lemma {:induction false} RemovedShrinks(n: Node, w: seq<char>, hasParent: bool, x: seq<char>)
    ensures StoresAfter(Removed(n, w, hasParent), x) ==> Stores(n, x)
    ensures SpellsAfter(Removed(n, w, hasParent), x) ==> Spells(n, x)
    decreases |w|
  {
    var c := n.content;
    var i := CommonPrefixLength(c, w);
    if i == |c| && i == |w| {
      if n.endNode && |n.sons| == 1 {
        FusedStores(n, x);
        FusedSpells(n, x);
      }
    } else if i < |w| {
      assert Removed(n, w, hasParent) == Descended(n, w[i], w[i + 1..]);
      if w[i] in n.sons && |c| < |x| && x[..|c|] == c && x[|c|] == w[i] {
        RemovedShrinks(n.sons[w[i]], w[i + 1..], true, x[|c| + 1..]);
      }
    }
  }

  /** Removal at a terminal node whose label is the whole removed word. */
  lemma RemovedHere(n: Node, hasParent: bool, x: seq<char>)
    requires n.endNode
    ensures StoresAfter(Removed(n, n.content, hasParent), x) <==> Stores(n, x) && x != n.content
  {
    CommonPrefixLengthUnique(n.content, n.content, |n.content|);
    if |n.sons| == 0 && hasParent {
      assert Stores(n, x) ==> x == n.content;
    } else if |n.sons| == 1 {
      FusedStores(n, x);
    } else {
      ClearedStores(n, x);
    }
  }

  /** The words of a node whose son under `key` was replaced by `s`. */
  lemma SonReplacedStores(n: Node, key: char, s: Node, x: seq<char>)
    ensures var c := n.content;
      Stores(n.(sons := n.sons[key := s]), x) <==>
        if |c| < |x| && x[..|c|] == c && x[|c|] == key then Stores(s, x[|c| + 1..])
        else Stores(n, x)
  {
    var c := n.content;
    if |c| < |x| && x[..|c|] == c && x[|c|] == key {
      assert x != c;
    }
  }

  /** The words of a node whose son under `key` left the map. */
  lemma SonDroppedStores(n: Node, key: char, x: seq<char>)
    ensures var c := n.content;
      Stores(n.(sons := n.sons - {key}), x) <==>
        !(|c| < |x| && x[..|c|] == c && x[|c|] == key) && Stores(n, x)
  {
    var c := n.content;
    if |c| < |x| && x[..|c|] == c && x[|c|] == key {
      assert x != c;
    }
  }

  /** Removing a stored word deletes exactly that word. */
  lemma {:induction false} RemovedStored(n: Node, w: seq<char>, hasParent: bool, x: seq<char>)
    requires Stores(n, w)
    ensures StoresAfter(Removed(n, w, hasParent), x) <==> Stores(n, x) && x != w
    decreases |w|
  {
    var c := n.content;
    CommonPrefixLengthUnique(c, w, |c|);
    if w == c {
      RemovedHere(n, hasParent, x);
    } else {
      var key, rest := w[|c|], w[|c| + 1..];
      var r := Removed(n.sons[key], rest, true);
      assert Removed(n, w, hasParent) ==
        if r.Detached? then Kept(n.(sons := n.sons - {key})) else Kept(n.(sons := n.sons[key := r.node]));
      if r.Detached? {
        SonDroppedStores(n, key, x);
      } else {
        SonReplacedStores(n, key, r.node, x);
      }
      ThroughKey(c, key, rest, x);
      ThroughKey(c, key, rest, w);
      if |c| < |x| && x[..|c|] == c && x[|c|] == key {
        RemovedStored(n.sons[key], rest, true, x[|c| + 1..]);
      }
    }
  }

  /** Every prefix of a stored word is visible to startsWith. */
  lemma {:induction false} StoredPrefixSpelled(n: Node, w: seq<char>, p: seq<char>)
    requires Stores(n, w) && p <= w
    ensures Spells(n, p)
    decreases n
  {
    var c := n.content;
    if |c| < |p| {
      var key := w[|c|];
      assert p[..|c|] == c && p[|c|] == key;
      assert p[|c| + 1..] <= w[|c| + 1..];
      StoredPrefixSpelled(n.sons[key], w[|c| + 1..], p[|c| + 1..]);
    } else {
      assert p == c[..|p|];
    }
  }

  /** The empty string is visible on every node. */
  lemma EmptySpelled(n: Node)
    ensures Spells(n, [])
  {
  }

  // Set-level statements

  /** search answers true exactly on the stored words. */
  lemma FoundWords(n: Node, w: seq<char>)
    ensures Found(n, w) <==> w in Words(n)
  {
    FoundStored(n, w);
    WordsStored(n, w);
  }

  /** startsWith answers true exactly on the visible prefixes. */
  lemma ReadableReach(n: Node, p: seq<char>)
    ensures Readable(n, p) <==> p in Reach(n)
  {
    ReadableSpelled(n, p);
    ReachSpelled(n, p);
  }

  /** A new node stores nothing and shows only the empty prefix. */
  lemma EmptyWords()
    ensures Words(Empty) == {}
    ensures Reach(Empty) == {[]}
  {
    forall x ensures x in Words(Empty) <==> false {
      WordsStored(Empty, x);
    }
    forall x ensures x in Reach(Empty) <==> x == [] {
      ReachSpelled(Empty, x);
    }
  }

  /** Insertion adds exactly one word. */
  lemma InsertWords(n: Node, w: seq<char>)
    ensures Words(Inserted(n, w)) == Words(n) + {w}
  {
    var m := Inserted(n, w);
    forall x ensures x in Words(m) <==> x in Words(n) || x == w {
      WordsStored(m, x);
      WordsStored(n, x);
      InsertedStores(n, w, x);
    }
  }

  /** Insertion makes exactly the prefixes of the word visible. */
  lemma InsertReach(n: Node, w: seq<char>)
    ensures Reach(Inserted(n, w)) == Reach(n) + Prefixes(w)
  {
    var m := Inserted(n, w);
    forall x ensures x in Reach(m) <==> x in Reach(n) || x in Prefixes(w) {
      ReachSpelled(m, x);
      ReachSpelled(n, x);
      InsertedSpells(n, w, x);
      PrefixesAt(w, x);
    }
  }

  /** Inserting a word twice is the same as inserting it once. */
  lemma InsertTwice(n: Node, w: seq<char>)
    ensures Words(Inserted(Inserted(n, w), w)) == Words(Inserted(n, w))
    ensures Reach(Inserted(Inserted(n, w), w)) == Reach(Inserted(n, w))
  {
    InsertWords(n, w);
    InsertWords(Inserted(n, w), w);
    InsertReach(n, w);
    InsertReach(Inserted(n, w), w);
  }

  /** Removal from the root, of any argument, only shrinks both sets. */
  lemma RemoveShrinks(n: Node, w: seq<char>)
    ensures Words(RemovedFromRoot(n, w)) <= Words(n)
    ensures Reach(RemovedFromRoot(n, w)) <= Reach(n)
  {
    var m := RemovedFromRoot(n, w);
    forall x | x in Words(m) ensures x in Words(n) {
      WordsStored(m, x);
      WordsStored(n, x);
      RemovedShrinks(n, w, false, x);
    }
    forall x | x in Reach(m) ensures x in Reach(n) {
      ReachSpelled(m, x);
      ReachSpelled(n, x);
      RemovedShrinks(n, w, false, x);
    }
  }

  /** Removing a stored word from the root deletes exactly that word. */
  lemma RemoveWords(n: Node, w: seq<char>)
    requires w in Words(n)
    ensures Words(RemovedFromRoot(n, w)) == Words(n) - {w}
  {
    var m := RemovedFromRoot(n, w);
    WordsStored(n, w);
    forall x ensures x in Words(m) <==> x in Words(n) && x != w {
      WordsStored(m, x);
      WordsStored(n, x);
      RemovedStored(n, w, false, x);
    }
  }

  /** Inserting a new word and removing it again restores the stored words. */
  lemma InsertThenRemove(n: Node, w: seq<char>)
    requires w !in Words(n)
    ensures Words(RemovedFromRoot(Inserted(n, w), w)) == Words(n)
  {
    InsertWords(n, w);
    RemoveWords(Inserted(n, w), w);
  }

  /** Every stored word, and every prefix of it, is visible to startsWith. */
  lemma WordsReached(n: Node, w: seq<char>)
    requires w in Words(n)
    ensures Prefixes(w) <= Reach(n)
  {
    WordsStored(n, w);
    forall p | p in Prefixes(w) ensures p in Reach(n) {
      PrefixesAt(w, p);
      StoredPrefixSpelled(n, w, p);
      ReachSpelled(n, p);
    }
  }
}
