/**
 The prefix tree of 07-Trie/main.go. Words are sequences of runes. The specification names every node
 by the path that leads to it, and knows the stored words as a plain map.
 */
module Tries {
  class TrieNode {
    var children: map<char, TrieNode>
    var end: bool
    var value: string

    constructor ()
      ensures children == map[] && !end && value == ""
    {
      children, end, value := map[], false, "";
    }
  }

  type Paths = map<string, TrieNode>

  /** The children of every named node. */
  type Links = map<string, map<char, TrieNode>>

  type Words = map<string, string>

  function Parent(p: string): string
    requires p != ""
  {
    p[..|p| - 1]
  }

  ghost function Kids(paths: Paths): Links
    reads paths.Values`children
  {
    map p | p in paths :: paths[p].children
  }

  /** The node of this path is its parent's child. */
  ghost predicate Hangs(paths: Paths, kids: Links, p: string)
    requires p in paths && p != "" && kids.Keys == paths.Keys
  {
    var c := p[|p| - 1];
    Parent(p) in paths && c in kids[Parent(p)] && kids[Parent(p)][c] == paths[p]
  }

  ghost predicate Hung(paths: Paths, kids: Links)
    requires kids.Keys == paths.Keys
  {
    forall p {:trigger Parent(p)} {:trigger Hangs(paths, kids, p)} | p in paths && p != "" :: Hangs(paths, kids, p)
  }

  ghost predicate Closed(paths: Paths, kids: Links)
    requires kids.Keys == paths.Keys
  {
    forall p, c {:trigger c in kids[p]} | p in paths && c in kids[p] :: p + [c] in paths
  }

  /** No node has two names. */
  ghost predicate Named(paths: Paths) {
    forall p, q {:trigger paths[p], paths[q]} | p in paths && q in paths && p != q :: paths[p] != paths[q]
  }

  /** The children are exactly the named paths. */
  ghost predicate Tree(paths: Paths, kids: Links) {
    "" in paths && kids.Keys == paths.Keys && Hung(paths, kids) && Closed(paths, kids) && Named(paths)
  }

  ghost predicate Linked(paths: Paths)
    reads paths.Values`children
  {
    Tree(paths, Kids(paths))
  }

  /** The flags and values are exactly the stored words. */
  ghost predicate Marked(paths: Paths, words: Words)
    reads paths.Values`end, paths.Values`value
  {
    && (forall w | w in words :: w in paths)
    && (forall p | p in paths :: paths[p].end == (p in words))
    && (forall p | p in paths :: paths[p].value == if p in words then words[p] else "")
  }

  /** Some stored word extends p. */
  ghost predicate Leads(words: Words, p: string) {
    exists w :: w in words && p <= w
  }

  /** Every named path leads to a stored word, but for the prefixes of q, which are being worked on. */
  ghost predicate PrunedBut(paths: Paths, words: Words, q: string) {
    forall p | p in paths :: p <= q || Leads(words, p)
  }

  lemma {:induction false} PrefixIn(paths: Paths, p: string, q: string)
    requires Linked(paths) && p in paths && q <= p
    ensures q in paths
    decreases |p|
  {
    if q != p {
      assert Hangs(paths, Kids(paths), p);
      PrefixIn(paths, Parent(p), q);
    }
  }

  class Trie {
    const root: TrieNode

    ghost var paths: Paths
    ghost var words: Words

    ghost predicate Valid()
      reads this, paths.Values
    {
      && Linked(paths) && Marked(paths, words) && PrunedBut(paths, words, "")
      && paths[""] == root
    }

    constructor ()
      ensures Valid() && words == map[] && fresh(paths.Values)
    {
      var node := new TrieNode();
      root := node;
      paths, words := map["" := node], map[];
    }

    /** The node at the end of the path, or null if there is no such path. */
    method FindNode(text: string) returns (found: TrieNode?)
      requires Linked(paths) && paths[""] == root
      ensures if text in paths then found == paths[text] else found == null
    {
      var node := root;
      for i := 0 to |text|
        invariant text[..i] in paths && node == paths[text[..i]]
      {
        ChildAt(paths, text[..i], text[i]);
        assert text[..i + 1] == text[..i] + [text[i]];
        if text[i] !in node.children {
          if text in paths {
            PrefixIn(paths, text, text[..i + 1]);
          }
          return null;
        }
        node := node.children[text[i]];
      }
      assert text[..|text|] == text;
      return node;
    }

    /** The stored value of exactly this word. */
    method Search(word: string) returns (value: string, ok: bool)
      requires Valid()
      ensures ok == (word in words)
      ensures value == if word in words then words[word] else ""
    {
      var node := FindNode(word);
      if node == null || !node.end {
        return "", false;
      }
      return node.value, true;
    }

    /** Whether some stored word starts with the prefix; an empty prefix is always accepted. */
    method StartsWith(prefix: string) returns (found: bool)
      requires Valid()
      ensures found == (prefix == "" || Leads(words, prefix))
    {
      var node := FindNode(prefix);
      if w :| w in words && prefix <= w {
        PrefixIn(paths, w, prefix);
      }
      return node != null;
    }

    /** Makes the missing child of the node at path q. */
    method Grow(node: TrieNode, ghost q: string, c: char)
      requires Linked(paths) && Marked(paths, words) && PrunedBut(paths, words, q)
      requires q in paths && node == paths[q] && c !in node.children
      modifies `paths, node`children
      ensures Linked(paths) && Marked(paths, words) && PrunedBut(paths, words, q + [c])
      ensures q + [c] in paths && node.children == old(node.children)[c := paths[q + [c]]]
      ensures fresh(paths[q + [c]]) && paths == old(paths)[q + [c] := paths[q + [c]]]
    {
      hide Tree, Kids, Marked, PrunedBut;
      var child := new TrieNode();
      ghost var before, leaf := Kids(paths), q + [c];
      KidsAt(paths, q);
      GrownTree(paths, before, q, c, child);
      GrownMarked(paths, words, leaf, child);
      GrownPruned(paths, words, q, c, child);
      KidsWith(paths, leaf, child);
      Singled(paths, q);
      Relink(node, paths[leaf := child], q, node.children[c := child]);
      paths := paths[leaf := child];
    }

    /** Stores a value for a word, replacing any earlier one. */
    method Insert(word: string, value: string)
      requires Valid()
      modifies this, paths.Values
      ensures Valid() && words == old(words)[word := value]
      ensures fresh(paths.Values - old(paths.Values))
    {
      hide Linked, Marked, PrunedBut;
      var node := root;
      RootIn(paths);
      for i := 0 to |word|
        invariant Linked(paths) && Marked(paths, words) && PrunedBut(paths, words, word[..i])
        invariant "" in paths && paths[""] == root && words == old(words)
        invariant word[..i] in paths && node == paths[word[..i]]
        invariant fresh(paths.Values - old(paths.Values))
      {
        ChildAt(paths, word[..i], word[i]);
        assert word[..i + 1] == word[..i] + [word[i]];
        if word[i] !in node.children {
          Grow(node, word[..i], word[i]);
        } else {
          PrunedLonger(paths, words, word[..i], word[..i + 1]);
        }
        node := node.children[word[i]];
      }
      assert word[..|word|] == word;
      Singled(paths, word);
      Mark(node, paths, words, word, true, value);
      WordPruned(paths, words, word, value);
      words := words[word := value];
    }

    /** Removes a stored word, and every node that then leads to no word. */
    method Delete(word: string) returns (result: bool)
      requires Valid()
      modifies this, paths.Values
      ensures Valid() && result == (word in old(words))
      ensures words == old(words) - {word}
      ensures paths.Values <= old(paths.Values)
    {
      hide Linked, Marked, PrunedBut;
      RootIn(paths);
      result := DeleteFrom(root, word, 0);
    }

    /** Below the node at the first index runes of the word: nothing is touched if the word is not stored. */
    method DeleteFrom(node: TrieNode, word: string, index: nat) returns (result: bool)
      requires Linked(paths) && Marked(paths, words) && PrunedBut(paths, words, "")
      requires index <= |word| && word[..index] in paths && node == paths[word[..index]]
      modifies `paths, `words, paths.Values
      ensures result == (word in old(words)) && words == old(words) - {word}
      ensures Linked(paths) && Marked(paths, words) && PrunedBut(paths, words, if result then word[..index] else "")
      ensures paths.Keys <= old(paths.Keys) && forall p | p in paths :: paths[p] == old(paths)[p]
      ensures word[..index] in paths
      decreases |word| - index
    {
      hide Linked, Marked, PrunedBut;
      ghost var q := word[..index];
      if index == |word| {
        assert q == word;
        result := Unmark(node, word);
        return;
      }
      ChildAt(paths, q, word[index]);
      assert word[..index + 1] == q + [word[index]];
      if word[index] !in node.children {
        NotStored(paths, words, word, word[..index + 1]);
        return false;
      }
      var child := node.children[word[index]];
      result := DeleteFrom(child, word, index + 1);
      PrefixIn(paths, word[..index + 1], q);
      if result {
        Tidy(node, q, word[index], child);
      }
    }

    /** The end of the path to a word: unmarks the word's node. */
    method Unmark(node: TrieNode, word: string) returns (result: bool)
      requires Linked(paths) && Marked(paths, words) && PrunedBut(paths, words, "")
      requires word in paths && node == paths[word]
      modifies `words, node`end, node`value
      ensures result == (word in old(words)) && words == old(words) - {word}
      ensures Linked(paths) && Marked(paths, words) && PrunedBut(paths, words, if result then word else "")
    {
      hide Linked, Marked, PrunedBut;
      MarkedAt(paths, words, word);
      if !node.end {
        return false;
      }
      Singled(paths, word);
      Mark(node, paths, words, word, false, "");
      Unstored(paths, words, word);
      words := words - {word};
      return true;
    }

    /** Deletes the child if it leads to no word any more. */
    method Tidy(node: TrieNode, ghost q: string, c: char, child: TrieNode)
      requires Linked(paths) && Marked(paths, words) && PrunedBut(paths, words, q + [c])
      requires q in paths && node == paths[q] && q + [c] in paths && child == paths[q + [c]]
      modifies `paths, node`children
      ensures paths.Keys <= old(paths.Keys) && q in paths && forall p | p in paths :: paths[p] == old(paths)[p]
      ensures Linked(paths) && Marked(paths, words) && PrunedBut(paths, words, q)
    {
      hide Linked, Marked, PrunedBut;
      if !child.end && |child.children| == 0 {
        Cut(node, q, c, child);
      } else {
        LeadsOn(paths, words, q, c);
      }
    }

    /** Deletes a childless child that ends no word. */
    method Cut(node: TrieNode, ghost q: string, c: char, ghost child: TrieNode)
      requires Linked(paths) && Marked(paths, words) && PrunedBut(paths, words, q + [c])
      requires q in paths && node == paths[q] && q + [c] in paths && child == paths[q + [c]]
      requires child.children == map[] && !child.end
      modifies `paths, node`children
      ensures paths == old(paths) - {q + [c]} && q in paths
      ensures Linked(paths) && Marked(paths, words) && PrunedBut(paths, words, q)
    {
      hide Tree, Kids, Marked, PrunedBut;
      ghost var before, leaf := Kids(paths), q + [c];
      KidsAt(paths, q);
      KidsAt(paths, leaf);
      CutTree(paths, before, q, c);
      CutMarked(paths, words, leaf);
      CutPruned(paths, words, q, c);
      KidsWithout(paths, leaf);
      Singled(paths, q);
      Relink(node, paths - {leaf}, q, node.children - {c});
      paths := paths - {leaf};
    }

    /** Every stored word that extends the prefix, once each, in no particular order. */
    method WordsWithPrefix(prefix: string) returns (result: seq<string>)
      requires Valid()
      ensures Lists(words, prefix, result)
    {
      var node := FindNode(prefix);
      if node == null {
        ListsNone(paths, words, prefix);
        return [];
      }
      result := Collect(node, prefix, []);
    }

    /** Appends the words below a node; its children come in any order. */
    method Collect(node: TrieNode, word: string, result: seq<string>) returns (longer: seq<string>)
      requires Linked(paths) && Marked(paths, words)
      requires word in paths && node == paths[word]
      ensures exists found :: longer == result + found && Lists(words, word, found)
      decreases Under(paths, word)
    {
      hide Linked, Marked, Lists, ListsBut;
      ghost var found := if node.end then [word] else [];
      longer := if node.end then result + [word] else result;
      var todo := node.children.Keys;
      ListsHere(paths, words, word);
      while todo != {}
        invariant todo <= node.children.Keys
        invariant longer == result + found && ListsBut(words, word, todo, found)
      {
        var c :| c in todo;
        ChildAt(paths, word, c);
        UnderChild(paths, word, c);
        var before := longer;
        longer := Collect(node.children[c], word + [c], before);
        ghost var more :| longer == before + more && Lists(words, word + [c], more);
        ListsMore(words, word, todo, c, found, more);
        found, todo := found + more, todo - {c};
        assert longer == result + found;
      }
      ListsAll(words, word, found);
    }
  }

  // ---------- Single nodes ----------

  /** Replaces the children of one named node. */
  method Relink(node: TrieNode, ghost paths: Paths, ghost q: string, children: map<char, TrieNode>)
    requires q in paths && node == paths[q] && forall p | p in paths && paths[p] == node :: p == q
    modifies node`children
    ensures node.children == children && Kids(paths) == old(Kids(paths))[q := children]
  {
    node.children := children;
  }

  lemma KidsAt(paths: Paths, q: string)
    requires q in paths
    ensures Kids(paths).Keys == paths.Keys && Kids(paths)[q] == paths[q].children
  {
  }

  lemma KidsWith(paths: Paths, leaf: string, child: TrieNode)
    requires leaf !in paths
    ensures Kids(paths[leaf := child]) == Kids(paths)[leaf := child.children]
  {
  }

  /** A new leaf below q. */
  lemma GrownTree(paths: Paths, kids: Links, q: string, c: char, child: TrieNode)
    requires Tree(paths, kids) && q in paths && c !in kids[q] && child !in paths.Values
    ensures q + [c] !in paths
    ensures Tree(paths[q + [c] := child], kids[q + [c] := map[]][q := kids[q][c := child]])
  {
    hide Hung, Closed, Named;
    GrownHung(paths, kids, q, c, child);
    GrownClosed(paths, kids, q, c, child);
    GrownNamed(paths, q + [c], child);
  }

  lemma GrownHung(paths: Paths, kids: Links, q: string, c: char, child: TrieNode)
    requires "" in paths && kids.Keys == paths.Keys && Hung(paths, kids) && q in paths && c !in kids[q]
    ensures q + [c] !in paths
    ensures Hung(paths[q + [c] := child], kids[q + [c] := map[]][q := kids[q][c := child]])
  {
    var leaf := q + [c];
    assert Parent(leaf) == q;
    var paths', kids' := paths[leaf := child], kids[leaf := map[]][q := kids[q][c := child]];
    forall p {:trigger Hangs(paths', kids', p)} | p in paths' && p != "" ensures Hangs(paths', kids', p) {
      if p != leaf {
        StillHangs(paths, kids, q, c, child, p);
      }
    }
  }

  lemma StillHangs(paths: Paths, kids: Links, q: string, c: char, child: TrieNode, p: string)
    requires kids.Keys == paths.Keys && q in paths && c !in kids[q] && q + [c] !in paths
    requires p in paths && p != "" && Hangs(paths, kids, p)
    ensures Hangs(paths[q + [c] := child], kids[q + [c] := map[]][q := kids[q][c := child]], p)
  {
  }

  lemma GrownClosed(paths: Paths, kids: Links, q: string, c: char, child: TrieNode)
    requires kids.Keys == paths.Keys && Closed(paths, kids) && q in paths && q + [c] !in paths
    ensures Closed(paths[q + [c] := child], kids[q + [c] := map[]][q := kids[q][c := child]])
  {
  }

  lemma GrownNamed(paths: Paths, leaf: string, child: TrieNode)
    requires Named(paths) && child !in paths.Values
    ensures Named(paths[leaf := child])
  {
  }

  lemma GrownMarked(paths: Paths, words: Words, leaf: string, child: TrieNode)
    requires Marked(paths, words) && leaf !in paths && !child.end && child.value == ""
    ensures Marked(paths[leaf := child], words)
  {
  }

  lemma GrownPruned(paths: Paths, words: Words, q: string, c: char, child: TrieNode)
    requires PrunedBut(paths, words, q)
    ensures PrunedBut(paths[q + [c] := child], words, q + [c])
  {
  }

  /** A node's children are the paths one rune longer. */
  lemma ChildAt(paths: Paths, q: string, c: char)
    requires Linked(paths) && q in paths
    ensures c in paths[q].children <==> q + [c] in paths
    ensures q + [c] in paths ==> paths[q].children[c] == paths[q + [c]]
  {
    assert Parent(q + [c]) == q;
    assert c in Kids(paths)[q] <==> c in paths[q].children;
    if q + [c] in paths {
      assert Hangs(paths, Kids(paths), q + [c]);
    }
  }

  lemma RootIn(paths: Paths)
    requires Linked(paths)
    ensures "" in paths
  {
  }

  /** No other path names the same node. */
  lemma Singled(paths: Paths, q: string)
    requires Linked(paths) && q in paths
    ensures forall p | p in paths && paths[p] == paths[q] :: p == q
  {
  }

  lemma PrunedLonger(paths: Paths, words: Words, q: string, r: string)
    requires PrunedBut(paths, words, q) && q <= r
    ensures PrunedBut(paths, words, r)
  {
  }

  /** A path to a new word is pruned once the word is stored. */
  lemma WordPruned(paths: Paths, words: Words, word: string, value: string)
    requires PrunedBut(paths, words, word)
    ensures PrunedBut(paths, words[word := value], "")
  {
    forall p | p in paths ensures Leads(words[word := value], p) {
      if w :| w in words && p <= w {
        assert w in words[word := value];
      }
      assert word in words[word := value];
    }
  }

  /** Sets the flag and the value of one named node. */
  method Mark(node: TrieNode, ghost paths: Paths, ghost words: Words, ghost q: string, end: bool, value: string)
    requires Marked(paths, words) && q in paths && node == paths[q]
    requires forall p | p in paths && paths[p] == node :: p == q
    requires !end ==> value == ""
    modifies node`end, node`value
    ensures Marked(paths, if end then words[q := value] else words - {q})
  {
    node.end := end;
    node.value := value;
  }

  lemma MarkedAt(paths: Paths, words: Words, p: string)
    requires Marked(paths, words) && p in paths
    ensures paths[p].end == (p in words)
  {
  }

  /** Only the paths of the word itself may need pruning once it is gone. */
  lemma Unstored(paths: Paths, words: Words, word: string)
    requires PrunedBut(paths, words, "")
    ensures PrunedBut(paths, words - {word}, word)
  {
    forall p | p in paths && !(p <= word) ensures Leads(words - {word}, p) {
      var w :| w in words && p <= w;
      assert w in words - {word};
    }
  }

  lemma NotStored(paths: Paths, words: Words, word: string, q: string)
    requires Linked(paths) && Marked(paths, words) && q <= word && q !in paths
    ensures word !in words && words - {word} == words
  {
    if word in paths {
      PrefixIn(paths, word, q);
    }
  }

  // ---------- Taking out a leaf ----------

  lemma KidsWithout(paths: Paths, leaf: string)
    requires leaf in paths
    ensures Kids(paths - {leaf}) == Kids(paths) - {leaf}
  {
  }

  lemma CutTree(paths: Paths, kids: Links, q: string, c: char)
    requires Tree(paths, kids) && q in paths && q + [c] in paths && kids[q + [c]] == map[]
    ensures Tree(paths - {q + [c]}, (kids - {q + [c]})[q := kids[q] - {c}])
  {
    hide Hung, Closed, Named;
    CutHung(paths, kids, q, c);
    CutClosed(paths, kids, q, c);
    CutNamed(paths, q + [c]);
  }

  lemma CutHung(paths: Paths, kids: Links, q: string, c: char)
    requires kids.Keys == paths.Keys && Hung(paths, kids)
    requires q in paths && q + [c] in paths && kids[q + [c]] == map[]
    ensures Hung(paths - {q + [c]}, (kids - {q + [c]})[q := kids[q] - {c}])
  {
    var paths', kids' := paths - {q + [c]}, (kids - {q + [c]})[q := kids[q] - {c}];
    forall p {:trigger Hangs(paths', kids', p)} | p in paths' && p != "" ensures Hangs(paths', kids', p) {
      assert Hangs(paths, kids, p);
      assert p == Parent(p) + [p[|p| - 1]];
    }
  }

  lemma CutClosed(paths: Paths, kids: Links, q: string, c: char)
    requires kids.Keys == paths.Keys && Closed(paths, kids) && q in paths && q + [c] in paths
    ensures q != q + [c]
    ensures Closed(paths - {q + [c]}, (kids - {q + [c]})[q := kids[q] - {c}])
  {
    assert |q| < |q + [c]|;
    var paths', kids' := paths - {q + [c]}, (kids - {q + [c]})[q := kids[q] - {c}];
    forall p, d {:trigger d in kids'[p]} | p in paths' && d in kids'[p] ensures p + [d] in paths' {
      LastRune(p, d, q, c);
    }
  }

  lemma LastRune(p: string, d: char, q: string, c: char)
    ensures p + [d] == q + [c] ==> p == q && d == c
  {
    assert Parent(p + [d]) == p && Parent(q + [c]) == q;
    assert (p + [d])[|p|] == d && (q + [c])[|q|] == c;
  }

  lemma CutNamed(paths: Paths, leaf: string)
    requires Named(paths)
    ensures Named(paths - {leaf})
  {
  }

  lemma CutMarked(paths: Paths, words: Words, leaf: string)
    requires Marked(paths, words) && leaf in paths && !paths[leaf].end
    ensures Marked(paths - {leaf}, words)
  {
  }

  lemma CutPruned(paths: Paths, words: Words, q: string, c: char)
    requires PrunedBut(paths, words, q + [c])
    ensures PrunedBut(paths - {q + [c]}, words, q)
  {
    forall p | p in paths && p != q + [c] && p <= q + [c] ensures p <= q {
      assert |p| <= |q|;
    }
  }

  /** A node that ends a word or has a child leads to a word. */
  lemma LeadsOn(paths: Paths, words: Words, q: string, c: char)
    requires Linked(paths) && Marked(paths, words) && PrunedBut(paths, words, q + [c])
    requires q + [c] in paths && (paths[q + [c]].end || paths[q + [c]].children != map[])
    ensures PrunedBut(paths, words, q)
  {
    hide Linked, Leads;
    var r := q + [c];
    if paths[r].end {
      StoredLeads(words, r);
    } else {
      var d :| d in paths[r].children;
      ChildAt(paths, r, d);
      LeadsUp(words, r, d);
    }
    forall p | p in paths && p <= r && p != r ensures p <= q {
      assert |p| <= |q|;
    }
  }

  lemma StoredLeads(words: Words, w: string)
    requires w in words
    ensures Leads(words, w)
  {
  }

  lemma LeadsUp(words: Words, r: string, d: char)
    ensures Leads(words, r + [d]) ==> Leads(words, r)
    ensures !(r + [d] <= r)
  {
    if w :| w in words && r + [d] <= w {
      assert r <= w;
    }
  }

  // ---------- Listing ----------

  ghost predicate Once(s: seq<string>) {
    forall i, j | 0 <= i < j < |s| :: s[i] != s[j]
  }

  /** Exactly the stored words that extend p, once each. */
  ghost predicate Lists(words: Words, p: string, s: seq<string>) {
    Once(s) && forall w :: w in s <==> w in words && p <= w
  }

  /** The same without the words that go on with a rune still to do. */
  ghost predicate ListsBut(words: Words, p: string, todo: set<char>, s: seq<string>) {
    Once(s) && forall w :: w in s <==> w in words && p <= w && (|w| > |p| ==> w[|p|] !in todo)
  }

  ghost function Under(paths: Paths, p: string): set<string> {
    set q | q in paths && p <= q
  }

  lemma UnderChild(paths: Paths, p: string, c: char)
    requires p in paths
    ensures Under(paths, p + [c]) < Under(paths, p)
  {
    assert p in Under(paths, p) && !(p + [c] <= p);
    forall q | q in Under(paths, p + [c]) ensures q in Under(paths, p) {
      assert p <= q;
    }
  }

  /** Before any child is visited, only the node's own word is listed. */
  lemma ListsHere(paths: Paths, words: Words, p: string)
    requires Linked(paths) && Marked(paths, words) && p in paths
    ensures ListsBut(words, p, paths[p].children.Keys, if paths[p].end then [p] else [])
  {
    hide Linked, Marked;
    MarkedAt(paths, words, p);
    forall w | w in words && p <= w && |w| > |p| ensures w[|p|] in paths[p].children {
      NextRune(paths, words, p, w);
    }
    forall w | w in words && p <= w && |w| <= |p| ensures w == p {
    }
  }

  /** A longer stored word goes on through a child. */
  lemma NextRune(paths: Paths, words: Words, p: string, w: string)
    requires Linked(paths) && Marked(paths, words) && p in paths && w in words && p <= w && |w| > |p|
    ensures w[|p|] in paths[p].children
  {
    hide Linked;
    var q := p + [w[|p|]];
    assert q <= w;
    PrefixIn(paths, w, q);
    ChildAt(paths, p, w[|p|]);
  }

  lemma ListsNone(paths: Paths, words: Words, p: string)
    requires Linked(paths) && Marked(paths, words) && p !in paths
    ensures Lists(words, p, [])
  {
    forall w | w in words ensures !(p <= w) {
      if p <= w {
        PrefixIn(paths, w, p);
      }
    }
  }

  lemma ListsMore(words: Words, p: string, todo: set<char>, c: char, s: seq<string>, more: seq<string>)
    requires ListsBut(words, p, todo, s) && c in todo && Lists(words, p + [c], more)
    ensures ListsBut(words, p, todo - {c}, s + more)
  {
    forall w | p <= w ensures p + [c] <= w <==> |w| > |p| && w[|p|] == c {
    }
    forall w | w in more ensures w !in s {
      assert p <= w && w[|p|] == c;
    }
    var all := s + more;
    forall i, j | 0 <= i < j < |all| ensures all[i] != all[j] {
      assert all[i] in s || i >= |s|;
    }
  }

  lemma ListsAll(words: Words, p: string, s: seq<string>)
    requires ListsBut(words, p, {}, s)
    ensures Lists(words, p, s)
  {
  }

  // ---------- Canonical form ----------

  /** The paths are exactly the prefixes of the stored words, and the root. */
  lemma PathsArePrefixes(t: Trie, p: string)
    requires t.Valid()
    ensures p in t.paths <==> p == "" || Leads(t.words, p)
  {
    if w :| w in t.words && p <= w {
      PrefixIn(t.paths, w, p);
    }
  }

  /**
   The stored words determine the whole structure: two tries with the same words have the same nodes
   under the same names, with the same children, flags and values, whatever was inserted and deleted.
   */
  lemma SameWordsSameShape(t: Trie, u: Trie, p: string)
    requires t.Valid() && u.Valid() && t.words == u.words
    ensures p in t.paths <==> p in u.paths
    ensures p in t.paths ==>
      && t.paths[p].children.Keys == u.paths[p].children.Keys
      && t.paths[p].end == u.paths[p].end && t.paths[p].value == u.paths[p].value
  {
    hide Linked, PrunedBut, Leads;
    PathsArePrefixes(t, p);
    PathsArePrefixes(u, p);
    if p in t.paths {
      forall c ensures c in t.paths[p].children <==> c in u.paths[p].children {
        PathsArePrefixes(t, p + [c]);
        PathsArePrefixes(u, p + [c]);
        ChildAt(t.paths, p, c);
        ChildAt(u.paths, p, c);
      }
    }
  }

  /** The documented meaning of `StartsWith` fails exactly for the empty prefix of an empty trie. */
  lemma StartsWithExactly(t: Trie, prefix: string)
    requires t.Valid()
    ensures (prefix == "" || Leads(t.words, prefix)) != Leads(t.words, prefix) <==> prefix == "" && t.words == map[]
  {
    if w :| w in t.words {
      assert "" <= w;
    }
  }
}
