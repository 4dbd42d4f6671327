/**
 * Character-level helpers shared by every operation of the trie in
 * src/trie/Trie.java: the "longest common prefix of the node's label and
 * the rest of the word" loop that opens insert, remove, search and
 * startsWith, the loop that builds a fused label during removal, and the
 * loop that copies a son's entries into its parent's map.
 */
module Labels {

  /** Length of the longest common prefix of `a` and `b`. */
  function CommonPrefixLength(a: seq<char>, b: seq<char>): (r: nat)
    ensures r <= |a| && r <= |b|
    ensures a[..r] == b[..r]
    ensures r < |a| && r < |b| ==> a[r] != b[r]
  {
    if |a| == 0 || |b| == 0 || a[0] != b[0] then 0
    else 1 + CommonPrefixLength(a[1..], b[1..])
  }

  /** The three facts above pin the common prefix length down uniquely. */
  lemma CommonPrefixLengthUnique(a: seq<char>, b: seq<char>, r: nat)
    requires r <= |a| && r <= |b|
    requires a[..r] == b[..r]
    requires r < |a| && r < |b| ==> a[r] != b[r]
    ensures r == CommonPrefixLength(a, b)
  {
  }

  /**
   * The matching loop: how many characters of `content` agree with the word
   * read from position `idx` on.
   */
  method MatchLength(content: seq<char>, word: seq<char>, idx: nat) returns (i: nat)
    requires idx <= |word|
    ensures i <= |content| && idx + i <= |word|
    ensures content[..i] == word[idx..idx + i]
    ensures i < |content| && idx + i < |word| ==> content[i] != word[idx + i]
    ensures i == CommonPrefixLength(content, word[idx..])
  {
    i := 0;
    while i < |content| && i + idx < |word| && content[i] == word[i + idx]
      invariant i <= |content| && idx + i <= |word|
      invariant content[..i] == word[idx..idx + i]
    {
      i := i + 1;
    }
    assert word[idx..][..i] == word[idx..idx + i];
    CommonPrefixLengthUnique(content, word[idx..], i);
  }

  /**
   * The fused label of a removal: a fresh array of length
   * |content| + 1 + |tail| holding the node's label, the branching key and
   * the son's label, filled one position at a time.
   */
  method FuseLabel(content: seq<char>, key: char, tail: seq<char>) returns (fused: seq<char>)
    ensures fused == content + [key] + tail
  {
    var buffer := new char[|content| + 1 + |tail|];
    for j := 0 to buffer.Length
      invariant forall m :: 0 <= m < j ==> buffer[m] == (content + [key] + tail)[m]
    {
      buffer[j] := if j < |content| then content[j]
                   else if j == |content| then key
                   else tail[j - (|content| + 1)];
    }
    fused := buffer[..];
  }

  /** Copies every entry of `from` into `into`, one `put` per entry. */
  method PutAll<V>(into: map<char, V>, from: map<char, V>) returns (r: map<char, V>)
    ensures r.Keys == into.Keys + from.Keys
    ensures forall k :: k in from ==> r[k] == from[k]
    ensures forall k :: k in into && k !in from ==> r[k] == into[k]
    ensures r == into + from
  {
    r := into;
    var pending := from.Keys;
    while pending != {}
      invariant pending <= from.Keys
      invariant r.Keys == into.Keys + (from.Keys - pending)
      invariant forall k :: k in from && k !in pending ==> r[k] == from[k]
      invariant forall k :: k in into && k !in from.Keys - pending ==> r[k] == into[k]
      decreases pending
    {
      var k :| k in pending;
      r := r[k := from[k]];
      pending := pending - {k};
    }
  }
}
