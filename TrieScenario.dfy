/**
 * The hand-written session of test/trie/TrieTest.java (lines 47-96) on the
 * values of module TrieSemantics: eight insertions, eleven searches, one
 * removal, five more searches and fifteen checks, with the answers they
 * give stated outright. `Found` and `Readable` are what the heap methods
 * search and startsWith of module TrieImpl are proved to answer.
 */
module TrieScenario {
  import opened TrieSemantics
  import opened TrieProperties

  /**
   * Lines 47-63: eight insertions into a new trie, "hola" and "" twice,
   * store six words and show the prefixes of the three words that are not
   * prefixes of others.
   */
  lemma Built(n0: Node, n1: Node, n2: Node, n3: Node, n4: Node,
              n5: Node, n6: Node, n7: Node, n8: Node)
    requires n0 == Empty && n1 == Inserted(n0, "") && n2 == Inserted(n1, "hola")
    requires n3 == Inserted(n2, "hola") && n4 == Inserted(n3, "hi")
    requires n5 == Inserted(n4, "bu") && n6 == Inserted(n5, "bubu")
    requires n7 == Inserted(n6, "ho") && n8 == Inserted(n7, "")
    ensures Words(n8) == {"", "hola", "hi", "bu", "bubu", "ho"}
    ensures Reach(n8) == Prefixes("hola") + Prefixes("hi") + Prefixes("bubu")
  {
    EmptyWords();
    InsertWords(n0, ""); InsertReach(n0, "");
    InsertWords(n1, "hola"); InsertReach(n1, "hola");
    InsertWords(n2, "hola"); InsertReach(n2, "hola");
    InsertWords(n3, "hi"); InsertReach(n3, "hi");
    InsertWords(n4, "bu"); InsertReach(n4, "bu");
    InsertWords(n5, "bubu"); InsertReach(n5, "bubu");
    InsertWords(n6, "ho"); InsertReach(n6, "ho");
    InsertWords(n7, ""); InsertReach(n7, "");
    Accumulated(Words(n8), Reach(n8));
  }

  /** The words and prefixes the eight insertions add, merged. */
  lemma Accumulated(c: set<seq<char>>, v: set<seq<char>>)
    requires c == {} + {""} + {"hola"} + {"hola"} + {"hi"} + {"bu"} + {"bubu"} + {"ho"} + {""}
    requires v == {[]} + Prefixes("") + Prefixes("hola") + Prefixes("hola") + Prefixes("hi")
                  + Prefixes("bu") + Prefixes("bubu") + Prefixes("ho") + Prefixes("")
    ensures c == {"", "hola", "hi", "bu", "bubu", "ho"}
    ensures v == Prefixes("hola") + Prefixes("hi") + Prefixes("bubu")
  {
    PrefixesShared();
  }

  /** The prefixes of the shorter words are among those of the longer ones. */
  lemma PrefixesShared()
    ensures Prefixes("") == {[]}
    ensures Prefixes("ho") <= Prefixes("hola") && Prefixes("bu") <= Prefixes("bubu")
    ensures [] in Prefixes("hola")
  {
    PrefixesAt("", []);
    PrefixesAt("hola", []);
    forall p | p in Prefixes("") ensures p == [] {
      PrefixesAt("", p);
    }
    forall p | p in Prefixes("ho") ensures p in Prefixes("hola") {
      PrefixesAt("ho", p);
      PrefixesAt("hola", p);
    }
    forall p | p in Prefixes("bu") ensures p in Prefixes("bubu") {
      PrefixesAt("bu", p);
      PrefixesAt("bubu", p);
    }
  }

  /** Which of the strings searched for the six words include. */
  lemma StoredAnswers(s: set<seq<char>>)
    requires s == {"", "hola", "hi", "bu", "bubu", "ho"}
    ensures "" in s && "ho" in s && "hola" in s && "hi" in s && "bu" in s
    ensures "h" !in s && "hol" !in s && "he" !in s && "hel" !in s && "hela" !in s && "b" !in s
  {
  }

  /** Removing "bu" from the six words leaves the other five. */
  lemma RemainingAnswers(s: set<seq<char>>, r: set<seq<char>>)
    requires s == {"", "hola", "hi", "bu", "bubu", "ho"}
    requires r == s - {"bu"}
    ensures "bu" in s && r == {"", "hola", "hi", "bubu", "ho"}
    ensures "bubu" in r && "ho" in r && "bu" !in r && "bub" !in r && "hu" !in r
  {
    assert r == {"", "hola", "hi", "bubu", "ho"};
  }

  /**
   * Which of the strings checked are prefixes the trie shows, when it shows
   * every prefix of "hola", "hi" and "bubu" and nothing else.
   */
  lemma VisibleAnswers(v: set<seq<char>>)
    requires Prefixes("hola") <= v && Prefixes("hi") <= v && Prefixes("bubu") <= v
    requires v <= Prefixes("hola") + Prefixes("hi") + Prefixes("bubu")
    ensures "h" in v && "ho" in v && "hol" in v && "hola" in v && "hi" in v
    ensures "b" in v && "bu" in v && "bub" in v && "bubu" in v
    ensures "he" !in v && "hel" !in v && "hela" !in v && "hu" !in v
  {
    assert "hola"[..1] == "h" && "hola"[..2] == "ho" && "hola"[..3] == "hol" && "hola"[..4] == "hola";
    assert "hi"[..2] == "hi";
    assert "bubu"[..1] == "b" && "bubu"[..2] == "bu" && "bubu"[..3] == "bub" && "bubu"[..4] == "bubu";
    forall p | p in ["he", "hel", "hela", "hu"] ensures p !in v {
      PrefixesAt("hola", p);
      PrefixesAt("hi", p);
      PrefixesAt("bubu", p);
    }
  }

  /** Lines 64-96: the answers of the session, search by search. */
  lemma Session(n0: Node, n1: Node, n2: Node, n3: Node, n4: Node,
                n5: Node, n6: Node, n7: Node, n8: Node, r: Node)
    requires n0 == Empty && n1 == Inserted(n0, "") && n2 == Inserted(n1, "hola")
    requires n3 == Inserted(n2, "hola") && n4 == Inserted(n3, "hi")
    requires n5 == Inserted(n4, "bu") && n6 == Inserted(n5, "bubu")
    requires n7 == Inserted(n6, "ho") && n8 == Inserted(n7, "")
    requires r == RemovedFromRoot(n8, "bu")
    ensures [Found(n8, ""), Found(n8, "h"), Found(n8, "ho"), Found(n8, "hol"), Found(n8, "hola"),
             Found(n8, "he"), Found(n8, "hel"), Found(n8, "hela"), Found(n8, "hi"),
             Found(n8, "b"), Found(n8, "bu")]
         == [true, false, true, false, true, false, false, false, true, false, true]
    ensures [Found(r, "bu"), Found(r, "bub"), Found(r, "bubu"), Found(r, "ho"), Found(r, "hu")]
         == [false, false, true, true, false]
    ensures [Found(r, ""), Readable(r, "h"), Readable(r, "ho"), Readable(r, "hol"),
             Readable(r, "hola"), Readable(r, "he"), Readable(r, "hel"), Readable(r, "hela"),
             Readable(r, "hi"), Readable(r, "b"), Readable(r, "bu"), Readable(r, "bub"),
             Readable(r, "bubu"), Readable(r, "ho"), Readable(r, "hu")]
         == [true, true, true, true, true, false, false, false, true, true, true, true, true, true, false]
  {
    Built(n0, n1, n2, n3, n4, n5, n6, n7, n8);
    StoredAnswers(Words(n8));
    RemoveWords(n8, "bu");
    RemoveShrinks(n8, "bu");
    RemainingAnswers(Words(n8), Words(r));
    WordsReached(r, "hola");
    WordsReached(r, "hi");
    WordsReached(r, "bubu");
    VisibleAnswers(Reach(r));
    forall w: seq<char> ensures Found(n8, w) <==> w in Words(n8) {
      FoundWords(n8, w);
    }
    forall w: seq<char> ensures Found(r, w) <==> w in Words(r) {
      FoundWords(r, w);
    }
    forall p: seq<char> ensures Readable(r, p) <==> p in Reach(r) {
      ReadableReach(r, p);
    }
  }
}
