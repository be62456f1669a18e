/*
 * The prefix index behind username autocompletion: a trie whose nodes map a
 * character to a child node and carry an end-of-word flag.
 *
 * Nodes live in an arena (`Trie.nodes`); a reference to a node is its position
 * in the arena and creating a node appends it. The children of a node are kept
 * as a sequence of (character, child) edges in the order they were added, which
 * is the order in which a dictionary yields its items.
 */
module PrefixIndex {

  datatype Option<T> = None | Some(value: T)

  /** One trie node: its outgoing edges, oldest first, and whether a stored word ends here. */
  datatype TrieNode = TrieNode(children: seq<(char, nat)>, isEndOfWord: bool)

  /** No string occurs twice in `s`. */
  ghost predicate NoDuplicates(s: seq<string>) {
    forall i, j :: 0 <= i < j < |s| ==> s[i] != s[j]
  }

  /** The characters labelling `edges`. */
  ghost function EdgeChars(edges: seq<(char, nat)>): set<char> {
    set j | 0 <= j < |edges| :: edges[j].0
  }

  /** Position of the edge labelled `c`: the membership test and the lookup a node's
      children dictionary answers. */
  function FindEdge(edges: seq<(char, nat)>, c: char): (r: Option<nat>)
    ensures r.Some? ==> r.value < |edges| && edges[r.value].0 == c
    ensures r.Some? ==> forall j :: 0 <= j < r.value ==> edges[j].0 != c
    ensures r.None? <==> forall j :: 0 <= j < |edges| ==> edges[j].0 != c
  {
    if edges == [] then None
    else if edges[0].0 == c then Some(0)
    else match FindEdge(edges[1..], c)
      case None => None
      case Some(j) => Some(j + 1)
  }

  /** Concatenating two duplicate-free sequences with no common element keeps them duplicate-free. */
  lemma NoDuplicatesConcat(a: seq<string>, b: seq<string>)
    requires NoDuplicates(a) && NoDuplicates(b)
    requires forall x :: x in a ==> x !in b
    ensures NoDuplicates(a + b)
  {
    forall i, j | 0 <= i < j < |a + b| ensures (a + b)[i] != (a + b)[j] {
      if j < |a| {
      } else if i < |a| {
        assert (a + b)[i] in a && (a + b)[j] in b;
      } else {
        assert (a + b)[i] == b[i - |a|] && (a + b)[j] == b[j - |a|];
      }
    }
  }

  class Trie {
    /** The arena; position 0 is the root, which stands for the empty prefix. */
    var nodes: seq<TrieNode>
    /** The string spelled by the edges from the root to each node. */
    ghost var spelling: seq<string>
    /** For each node but the root: the node whose edge leads to it ... */
    ghost var parent: seq<nat>
    /** ... and that edge's position among the parent's children. */
    ghost var slot: seq<nat>

    /** Every edge leads forward in the arena and extends its source's spelling by its
        character; a node's edges carry distinct characters; every node but the root
        hangs below exactly the edge recorded in `parent` and `slot`. */
    ghost predicate Valid()
      reads this
    {
      && 1 <= |nodes|
      && |spelling| == |nodes| && |parent| == |nodes| && |slot| == |nodes|
      && spelling[0] == []
      && (forall n, i :: 0 <= n < |nodes| && 0 <= i < |nodes[n].children| ==>
            n < nodes[n].children[i].1 < |nodes| &&
            spelling[nodes[n].children[i].1] == spelling[n] + [nodes[n].children[i].0])
      && (forall n, i, j :: 0 <= n < |nodes| && 0 <= i < j < |nodes[n].children| ==>
            nodes[n].children[i].0 != nodes[n].children[j].0)
      && (forall n :: 0 < n < |nodes| ==>
            parent[n] < n && slot[n] < |nodes[parent[n]].children| &&
            nodes[parent[n]].children[slot[n]].1 == n)
    }

    /** The stored words: the labels of the end-of-word nodes. */
    ghost function Words(): set<string>
      reads this
      requires Valid()
    {
      set n | 0 <= n < |nodes| && nodes[n].isEndOfWord :: spelling[n]
    }

    /** The words below node `n`, listed depth-first with `n` itself first and its
        children in the order they were added; `prefix` is the string that `n` stands for. */
    ghost function Subtree(n: nat, prefix: string): seq<string>
      reads this
      requires Valid() && n < |nodes|
      decreases |nodes| - n, 1, 0
    {
      (if nodes[n].isEndOfWord then [prefix] else [])
        + SubtreeKids(n, |nodes[n].children|, prefix)
    }

    /** The words below the first `i` children of node `n`, child by child. */
    ghost function SubtreeKids(n: nat, i: nat, prefix: string): seq<string>
      reads this
      requires Valid() && n < |nodes| && i <= |nodes[n].children|
      decreases |nodes| - n, 0, i
    {
      if i == 0 then []
      else
        var (c, child) := nodes[n].children[i - 1];
        SubtreeKids(n, i - 1, prefix) + Subtree(child, prefix + [c])
    }

    /** An empty trie: a root with no children that ends no word. */
    constructor ()
      ensures Valid() && Words() == {}
      ensures nodes == [TrieNode([], false)]
    {
      nodes := [TrieNode([], false)];
      spelling := [[]];
      parent := [0];
      slot := [0];
    }

    /** Walks `word` from the root, creating every missing child on the way, and marks
        the node reached as the end of a word. Stores exactly `word` in addition to
        what was stored; when `word` was stored already, no node changes at all. */
    method Insert(word: string)
      requires Valid()
      modifies this
      ensures Valid()
      ensures Words() == old(Words()) + {word}
      ensures word in old(Words()) ==> nodes == old(nodes)
    {
      var current: nat := 0;
      var i := 0;
      while i < |word|
        invariant Valid()
        invariant 0 <= i <= |word| && current < |nodes|
        invariant spelling[current] == word[..i]
        invariant Words() == old(Words())
        invariant word in old(Words()) ==> nodes == old(nodes)
      {
        var c := word[i];
        var e := FindEdge(nodes[current].children, c);
        var next: nat;
        if e.None? {
          assert word[..i + 1] == spelling[current] + [c];
          NotStoredBeyondMissingEdge(current, c, word);
          next := AddChild(current, c);
        } else {
          next := nodes[current].children[e.value].1;
        }
        assert word[..i + 1] == word[..i] + [c];
        current := next;
        i := i + 1;
      }
      assert spelling[current] == word;
      if word in Words() {
        var m :| 0 <= m < |nodes| && nodes[m].isEndOfWord && spelling[m] == word;
        LabelInjective(m, current);
      }
      MarkEndOfWord(current);
    }

    /** Marks node `n` as the end of a word, so that the string it spells is stored. */
    method MarkEndOfWord(n: nat)
      requires Valid() && n < |nodes|
      modifies this
      ensures Valid() && spelling == old(spelling)
      ensures Words() == old(Words()) + {spelling[n]}
      ensures old(nodes[n].isEndOfWord) ==> nodes == old(nodes)
    {
      ghost var before, reached := Words(), nodes;
      if nodes[n].isEndOfWord {
        assert nodes[n].(isEndOfWord := true) == nodes[n];
      }
      nodes := nodes[n := nodes[n].(isEndOfWord := true)];
      assert spelling[n] in Words();
      forall w | w in Words() ensures w in before + {spelling[n]} {
        var m :| 0 <= m < |nodes| && nodes[m].isEndOfWord && spelling[m] == w;
        if m != n {
          assert reached[m].isEndOfWord;
        }
      }
      forall w | w in before ensures w in Words() {
        var m :| 0 <= m < |nodes| && reached[m].isEndOfWord && spelling[m] == w;
        assert nodes[m].isEndOfWord;
      }
    }

    /** Creates the child the walk needs where node `from` has no edge labelled `c`:
        a new empty node under a new last edge, which is returned. The stored words
        do not change. */
    method AddChild(from: nat, c: char) returns (child: nat)
      requires Valid() && from < |nodes|
      requires FindEdge(nodes[from].children, c).None?
      modifies this
      ensures Valid() && Words() == old(Words())
      ensures child == old(|nodes|) && |nodes| == child + 1
      ensures spelling[child] == spelling[from] + [c]
      ensures forall n :: 0 <= n < child ==> spelling[n] == old(spelling[n])
      ensures nodes[from].children == old(nodes[from].children) + [(c, child)]
      ensures !nodes[child].isEndOfWord && nodes[child].children == []
      ensures forall n :: 0 <= n < old(|nodes|) && n != from ==> nodes[n] == old(nodes[n])
    {
      child := |nodes|;
      var k := |nodes[from].children|;
      ghost var before := Words();
      ghost var oldNodes, oldSpelling := nodes, spelling;
      var grown := TrieNode(nodes[from].children + [(c, child)], nodes[from].isEndOfWord);
      nodes := nodes[from := grown] + [TrieNode([], false)];
      spelling := spelling + [spelling[from] + [c]];
      parent := parent + [from];
      slot := slot + [k];
      assert forall n :: 0 <= n < child ==> spelling[n] == oldSpelling[n];
      assert forall n :: 0 <= n < child && n != from ==> nodes[n] == oldNodes[n];
      forall n, i | 0 <= n < |nodes| && 0 <= i < |nodes[n].children|
        ensures n < nodes[n].children[i].1 < |nodes|
        ensures spelling[nodes[n].children[i].1] == spelling[n] + [nodes[n].children[i].0]
      {
        if n == from && i == k {
        } else {
          assert nodes[n].children[i] == oldNodes[n].children[i];
        }
      }
      forall n, i, j | 0 <= n < |nodes| && 0 <= i < j < |nodes[n].children|
        ensures nodes[n].children[i].0 != nodes[n].children[j].0
      {
        if n == from && j == k {
          assert nodes[n].children[i] == oldNodes[n].children[i];
        } else {
          assert nodes[n].children[i] == oldNodes[n].children[i];
          assert nodes[n].children[j] == oldNodes[n].children[j];
        }
      }
      forall n | 0 < n < |nodes|
        ensures parent[n] < n && slot[n] < |nodes[parent[n]].children|
        ensures nodes[parent[n]].children[slot[n]].1 == n
      {
        if n < child {
          assert nodes[parent[n]].children[slot[n]] == oldNodes[parent[n]].children[slot[n]];
        }
      }
      forall w | w in Words() ensures w in before {
        var m :| 0 <= m < |nodes| && nodes[m].isEndOfWord && spelling[m] == w;
        assert oldNodes[m].isEndOfWord && oldSpelling[m] == w;
      }
      forall w | w in before ensures w in Words() {
        var m :| 0 <= m < child && oldNodes[m].isEndOfWord && oldSpelling[m] == w;
        assert nodes[m].isEndOfWord && spelling[m] == w;
      }
    }

    /** Looks `prefix` up: walks it from the root and, if every character has an edge,
        lists the words below the node reached. The result holds exactly the stored
        words that start with `prefix`, each once; it is empty when no node spells
        `prefix`, and starts with `prefix` itself when that is a stored word. */
    method Search(prefix: string) returns (suggestions: seq<string>)
      requires Valid()
      ensures forall w :: w in suggestions <==> w in Words() && prefix <= w
      ensures NoDuplicates(suggestions)
      ensures suggestions == [] <==> forall w :: w in Words() ==> !(prefix <= w)
      ensures (forall n :: 0 <= n < |nodes| ==> spelling[n] != prefix) ==> suggestions == []
      ensures prefix in Words() ==> suggestions != [] && suggestions[0] == prefix
    {
      var current: nat := 0;
      var i := 0;
      while i < |prefix|
        invariant 0 <= i <= |prefix| && current < |nodes|
        invariant spelling[current] == prefix[..i]
      {
        var e := FindEdge(nodes[current].children, prefix[i]);
        if e.None? {
          assert prefix[..i + 1] == spelling[current] + [prefix[i]];
          NotStoredBeyondMissingEdge(current, prefix[i], prefix);
          return [];
        }
        current := nodes[current].children[e.value].1;
        assert prefix[..i + 1] == prefix[..i] + [prefix[i]];
        i := i + 1;
      }
      assert spelling[current] == prefix;
      suggestions := AutocompleteFromNode(current, prefix);
      SubtreeShape(current, prefix);
      SubtreeSound(current);
      forall w | w in Words() && prefix <= w ensures w in suggestions {
        var m :| 0 <= m < |nodes| && nodes[m].isEndOfWord && spelling[m] == w;
        SubtreeComplete(current, m);
      }
      if prefix in Words() {
        var m :| 0 <= m < |nodes| && nodes[m].isEndOfWord && spelling[m] == prefix;
        LabelInjective(m, current);
      }
      if suggestions != [] {
        assert suggestions[0] in suggestions;
      }
    }

    /** Lists the words below `node` depth-first: `prefix` first when `node` ends a
        word, then the words below each child in the order the children were added. */
    method AutocompleteFromNode(node: nat, prefix: string) returns (suggestions: seq<string>)
      requires Valid() && node < |nodes|
      ensures suggestions == Subtree(node, prefix)
      decreases |nodes| - node
    {
      suggestions := [];
      if nodes[node].isEndOfWord {
        suggestions := suggestions + [prefix];
      }
      ghost var own := suggestions;
      var children := nodes[node].children;
      var i := 0;
      while i < |children|
        invariant 0 <= i <= |children|
        invariant suggestions == own + SubtreeKids(node, i, prefix)
      {
        var (c, next) := children[i];
        var below := AutocompleteFromNode(next, prefix + [c]);
        suggestions := suggestions + below;
        i := i + 1;
      }
    }

    /** A node other than the root hangs below its recorded parent by one character. */
    lemma HangsBelowParent(n: nat)
      requires Valid() && 0 < n < |nodes|
      ensures parent[n] < n && slot[n] < |nodes[parent[n]].children|
      ensures nodes[parent[n]].children[slot[n]].1 == n
      ensures spelling[n] == spelling[parent[n]] + [nodes[parent[n]].children[slot[n]].0]
    {
    }

    /** Two nodes that spell the same string are the same node: the arena is a tree. */
    lemma {:induction false} LabelInjective(m: nat, n: nat)
      requires Valid() && m < |nodes| && n < |nodes| && spelling[m] == spelling[n]
      ensures m == n
      decreases |spelling[m]|
    {
      if m != 0 && n != 0 {
        HangsBelowParent(m);
        HangsBelowParent(n);
        var last := |spelling[m]| - 1;
        assert spelling[parent[m]] == spelling[m][..last] == spelling[parent[n]];
        LabelInjective(parent[m], parent[n]);
        assert nodes[parent[m]].children[slot[m]].0 == spelling[m][last]
          == nodes[parent[n]].children[slot[n]].0;
      } else if m != 0 {
        HangsBelowParent(m);
      } else if n != 0 {
        HangsBelowParent(n);
      }
    }

    /** Every prefix of a node's spelling is spelled by some node: its ancestor at that depth. */
    lemma {:induction false} Ancestor(m: nat, d: nat) returns (a: nat)
      requires Valid() && m < |nodes| && d <= |spelling[m]|
      ensures a < |nodes| && spelling[a] == spelling[m][..d]
      decreases m
    {
      if d == |spelling[m]| {
        a := m;
      } else {
        HangsBelowParent(m);
        a := Ancestor(parent[m], d);
      }
    }

    /** A node `cur` has an edge towards every node whose spelling strictly extends its own,
        labelled with the next character of that spelling. */
    lemma EdgeToward(cur: nat, m: nat) returns (j: nat)
      requires Valid() && cur < |nodes| && m < |nodes|
      requires spelling[cur] <= spelling[m] && |spelling[cur]| < |spelling[m]|
      ensures j < |nodes[cur].children|
      ensures nodes[cur].children[j].0 == spelling[m][|spelling[cur]|]
    {
      var a := Ancestor(m, |spelling[cur]| + 1);
      HangsBelowParent(a);
      assert spelling[parent[a]] == spelling[m][..|spelling[cur]|] == spelling[cur];
      LabelInjective(parent[a], cur);
      j := slot[a];
    }

    /** When node `cur` has no edge labelled `c`, no stored word, and in particular not
        `s`, starts with the string `cur` spells followed by `c`. */
    lemma NotStoredBeyondMissingEdge(cur: nat, c: char, s: string)
      requires Valid() && cur < |nodes|
      requires FindEdge(nodes[cur].children, c).None?
      requires spelling[cur] + [c] <= s
      ensures forall w :: w in Words() ==> !(s <= w)
      ensures forall n :: 0 <= n < |nodes| ==> spelling[n] != s
    {
      forall n | 0 <= n < |nodes| ensures !(spelling[cur] + [c] <= spelling[n]) {
        if spelling[cur] + [c] <= spelling[n] {
          var j := EdgeToward(cur, n);
        }
      }
      forall w | w in Words() ensures !(s <= w) {
        var m :| 0 <= m < |nodes| && nodes[m].isEndOfWord && spelling[m] == w;
        assert !(spelling[cur] + [c] <= spelling[m]);
      }
    }

    /** Every word listed below `n` starts with `prefix`, and none is listed twice. */
    lemma {:induction false} SubtreeShape(n: nat, prefix: string)
      requires Valid() && n < |nodes|
      ensures forall w :: w in Subtree(n, prefix) ==> prefix <= w
      ensures NoDuplicates(Subtree(n, prefix))
      decreases |nodes| - n, 1, 0
    {
      var k := |nodes[n].children|;
      KidsShape(n, k, prefix);
      var own := if nodes[n].isEndOfWord then [prefix] else [];
      NoDuplicatesConcat(own, SubtreeKids(n, k, prefix));
    }

    /** Every word listed below the first `i` children of `n` is longer than `prefix`,
        starts with it, and continues with the character of one of those children;
        none is listed twice. */
    lemma {:induction false} KidsShape(n: nat, i: nat, prefix: string)
      requires Valid() && n < |nodes| && i <= |nodes[n].children|
      ensures forall w :: w in SubtreeKids(n, i, prefix) ==>
        |prefix| < |w| && prefix <= w && w[|prefix|] in EdgeChars(nodes[n].children[..i])
      ensures NoDuplicates(SubtreeKids(n, i, prefix))
      decreases |nodes| - n, 0, i
    {
      if i > 0 {
        var (c, child) := nodes[n].children[i - 1];
        KidsShape(n, i - 1, prefix);
        SubtreeShape(child, prefix + [c]);
        var left, right := SubtreeKids(n, i - 1, prefix), Subtree(child, prefix + [c]);
        assert EdgeChars(nodes[n].children[..i]) == EdgeChars(nodes[n].children[..i - 1]) + {c};
        forall w | w in right
          ensures |prefix| < |w| && prefix <= w && w[|prefix|] == c
        {
          assert w[..|prefix| + 1] == prefix + [c];
          assert w[..|prefix|] == (prefix + [c])[..|prefix|];
        }
        forall w | w in left ensures w !in right {
          assert w[|prefix|] != c;
        }
        NoDuplicatesConcat(left, right);
      }
    }

    /** Every word listed below `n`, when `n` is given its own spelling, is a stored word. */
    lemma {:induction false} SubtreeSound(n: nat)
      requires Valid() && n < |nodes|
      ensures forall w :: w in Subtree(n, spelling[n]) ==> w in Words()
      decreases |nodes| - n, 1, 0
    {
      KidsSound(n, |nodes[n].children|);
      if nodes[n].isEndOfWord {
        assert spelling[n] in Words();
      }
    }

    /** Every word listed below the first `i` children of `n` is a stored word. */
    lemma {:induction false} KidsSound(n: nat, i: nat)
      requires Valid() && n < |nodes| && i <= |nodes[n].children|
      ensures forall w :: w in SubtreeKids(n, i, spelling[n]) ==> w in Words()
      decreases |nodes| - n, 0, i
    {
      if i > 0 {
        var (c, child) := nodes[n].children[i - 1];
        KidsSound(n, i - 1);
        SubtreeSound(child);
      }
    }

    /** Every stored word that starts with the spelling of `n` is listed below `n`. */
    lemma {:induction false} SubtreeComplete(n: nat, m: nat)
      requires Valid() && n < |nodes| && m < |nodes|
      requires nodes[m].isEndOfWord && spelling[n] <= spelling[m]
      ensures spelling[m] in Subtree(n, spelling[n])
      decreases |spelling[m]| - |spelling[n]|
    {
      if |spelling[m]| == |spelling[n]| {
        LabelInjective(m, n);
      } else {
        var a := Ancestor(m, |spelling[n]| + 1);
        HangsBelowParent(a);
        assert spelling[parent[a]] == spelling[m][..|spelling[n]|] == spelling[n];
        LabelInjective(parent[a], n);
        SubtreeComplete(a, m);
        KidsContain(n, |nodes[n].children|, slot[a], spelling[n], spelling[m]);
      }
    }

    /** The words below child `j` of `n` are among those listed below its first `i` children, `j < i`. */
    lemma {:induction false} KidsContain(n: nat, i: nat, j: nat, prefix: string, w: string)
      requires Valid() && n < |nodes| && j < i <= |nodes[n].children|
      requires w in Subtree(nodes[n].children[j].1, prefix + [nodes[n].children[j].0])
      ensures w in SubtreeKids(n, i, prefix)
      decreases i
    {
      if j < i - 1 {
        KidsContain(n, i - 1, j, prefix, w);
      }
    }
  }
}
