// A trie of byte strings over the 26 lower-case letters. Every node has an
// entry flag and, once something has been inserted through it, an array of
// 26 child slots indexed by letter. The trie's contents are the words whose
// letters lead from the root to a node whose entry flag is set (`Has`).
module PrefixTrie {

  newtype byte = x: int | 0 <= x < 256

  /** The letters 'a' (97) to 'z' (122). */
  predicate IsLower(letter: byte)
  {
    97 <= letter <= 122
  }

  /**
   * `LetterToIndex`: the letter's distance from 'a', computed in bytes, so a
   * byte below 'a' wraps around to 159 or more. Exactly the lower-case
   * letters land in 0..25.
   */
  function LetterToIndex(letter: byte): (r: int)
    ensures 0 <= r < 256
    ensures r < 26 <==> IsLower(letter)
    ensures IsLower(letter) ==> r as byte + 97 == letter
  {
    ((letter as int - 97) % 256) as int
  }

  /** The letter a child slot stands for. */
  function IndexToLetter(i: int): (letter: byte)
    requires 0 <= i < 26
    ensures IsLower(letter)
  {
    (i + 97) as byte
  }

  /** Slots and lower-case letters correspond one to one. */
  lemma LetterIndexRoundTrip(letter: byte, i: int)
    requires 0 <= i < 26
    ensures IsLower(letter) ==> IndexToLetter(LetterToIndex(letter)) == letter
    ensures LetterToIndex(IndexToLetter(i)) == i
  {
  }

  /** Two letters that share a slot are the same letter. */
  lemma LetterToIndexInjective(a: byte, b: byte)
    requires LetterToIndex(a) == LetterToIndex(b) && LetterToIndex(a) < 26
    ensures a == b
  {
  }

  /** Whether every letter of `value` from `index` on is lower case. */
  ghost predicate LowerFrom(value: seq<byte>, index: nat)
  {
    forall i :: index <= i < |value| ==> IsLower(value[i])
  }

  class TrieNode {
    var isEntry: bool
    var children: array?<TrieNode?>
    // This node, its child array and everything below it.
    ghost var Repr: set<object>

    /**
     * The node invariant: a child array has 26 slots, and every child owns
     * its footprint (disjoint from its siblings') and is itself valid.
     */
    ghost predicate Valid()
      reads this, Repr
      decreases Repr
    {
      && this in Repr
      && (children != null ==>
            && children in Repr && children.Length == 26
            && (forall i :: 0 <= i < 26 && children[i] != null ==>
                  && children[i] in Repr && children[i].Repr <= Repr
                  && this !in children[i].Repr && children !in children[i].Repr
                  && children[i].Valid())
            && (forall i, j :: 0 <= i < j < 26 && children[i] != null && children[j] != null ==>
                  children[i].Repr !! children[j].Repr))
    }

    /** The child slot for `letter`, or nil when there is none. */
    ghost function Child(letter: byte): (c: TrieNode?)
      reads this, Repr
      requires Valid()
      ensures c != null ==> c in Repr && c.Repr < Repr && c.Valid()
    {
      if children != null && LetterToIndex(letter) < 26 then children[LetterToIndex(letter)] else null
    }

    /** Whether the word `w` is stored below this node. */
    ghost predicate Has(w: seq<byte>)
      reads this, Repr
      requires Valid()
      decreases |w|
    {
      if |w| == 0 then isEntry
      else Child(w[0]) != null && Child(w[0]).Has(w[1..])
    }

    /**
     * Whether every node strictly below this one has a child array, as every
     * node that `Insert` creates gets one.
     */
    ghost predicate Grown()
      reads this, Repr
      requires Valid()
      decreases Repr
    {
      children != null ==>
        forall i :: 0 <= i < 26 && children[i] != null ==> children[i].children != null && children[i].Grown()
    }

    /** `Grown`, except possibly for the child in slot `k`. */
    ghost predicate GrownExcept(k: int)
      reads this, Repr
      requires Valid()
    {
      && children != null
      && forall i :: 0 <= i < 26 && i != k && children[i] != null ==> children[i].children != null && children[i].Grown()
    }

    /**
     * Whether `Delete(value, index)` proceeds without a fault: every node it
     * reaches before the end of the word has a child array and meets a
     * lower-case letter.
     */
    ghost predicate CanDelete(value: seq<byte>, index: nat)
      reads this, Repr
      requires Valid() && index <= |value|
      decreases |value| - index
    {
      index == |value|
      || (&& children != null && IsLower(value[index])
          && (Child(value[index]) != null ==> Child(value[index]).CanDelete(value, index + 1)))
    }

    /** `&TrieNode{}`: no entry and no child array. */
    constructor ()
      ensures Valid() && Repr == {this} && !isEntry && children == null
      ensures Grown() && forall w :: !Has(w)
    {
      isEntry := false;
      children := null;
      Repr := {this};
    }

    /** The footprint of child slot `k`: empty when the slot is nil. */
    ghost function SlotRepr(k: int): set<object>
      reads this, Repr
      requires Valid() && children != null && 0 <= k < 26
    {
      if children[k] != null then children[k].Repr else {}
    }

    /**
     * Gives the node a child array of 26 nil slots when it has none; the
     * stored words stay the same.
     */
    method EnsureChildren()
      requires Valid()
      modifies this
      ensures Valid() && children != null && isEntry == old(isEntry)
      ensures fresh(Repr - old(Repr)) && (old(children) != null ==> Repr == old(Repr) && children == old(children))
      ensures (Grown() <==> old(Grown())) && forall x :: Has(x) <==> old(Has(x))
    {
      if children == null {
        var slots := new TrieNode?[26](_ => null);
        children := slots;
        Repr := Repr + {slots};
        forall x ensures Has(x) <==> old(Has(x)) {
          assert |x| > 0 ==> Child(x[0]) == null;
        }
      }
    }

    /** `t.children[k] = &TrieNode{}`: hangs a new empty node in the nil slot `k`. */
    method AddChild(k: int) returns (c: TrieNode)
      requires Valid() && children != null && 0 <= k < 26 && children[k] == null
      modifies this, children
      ensures Valid() && fresh(c) && c.Repr == {c} && c.children == null && !c.isEntry
      ensures children == old(children) && children[k] == c && Repr == old(Repr) + {c}
      ensures forall j :: 0 <= j < 26 && j != k ==> children[j] == old(children[j])
      ensures isEntry == old(isEntry) && forall x :: Has(x) <==> old(Has(x))
      ensures old(Grown()) ==> GrownExcept(k)
    {
      c := new TrieNode();
      children[k] := c;
      Repr := Repr + {c};
      if old(Grown()) {
        forall i | 0 <= i < 26 && i != k && children[i] != null
          ensures children[i].children != null && children[i].Grown()
        {
          assert children[i] == old(children[i]);
        }
      }
      forall x ensures Has(x) <==> old(Has(x)) {
        if |x| > 0 && LetterToIndex(x[0]) != k {
          var d := Child(x[0]);
          assert d == old(Child(x[0]));
          assert d != null ==> unchanged(d.Repr) && (d.Has(x[1..]) <==> old(d.Has(x[1..])));
        }
      }
    }

    /**
     * Stores `value[index..]` below this node: the node first gets a child
     * array if it has none, then either becomes an entry (at the end of the
     * word) or passes the rest of the word to the child for the next letter,
     * creating that child when the slot is empty.
     */
    method Insert(value: seq<byte>, index: nat)
      requires Valid() && Grown() && index <= |value| && LowerFrom(value, index)
      modifies Repr
      ensures Valid() && fresh(Repr - old(Repr))
      ensures children != null && Grown()
      ensures forall x :: Has(x) <==> old(Has(x)) || x == value[index..]
      decreases |value| - index
    {
      EnsureChildren();
      label Ready:
      if index == |value| {
        isEntry := true;
        EntryFlagSet@Ready(this);
      } else {
        var nextIndex := LetterToIndex(value[index]);
        var nextChild := children[nextIndex];
        if nextChild == null {
          nextChild := AddChild(nextIndex);
        }
        label Slot:
        nextChild.Insert(value, index + 1);
        Repr := Repr + nextChild.Repr;
        ghost var word := value[index..];
        assert word[1..] == value[index + 1..];
        ChildStored@Slot(this, nextIndex, word);
      }
    }

    /**
     * Removes `value[index..]` from below this node: at the end of the word
     * the entry flag is cleared, otherwise the rest of the word goes to the
     * child for the next letter, and that child is unhung when it reports
     * that it is left bare. The result reports whether this node is now bare.
     */
    method Delete(value: seq<byte>, index: nat) returns (r: bool)
      requires Valid() && Grown() && index <= |value| && CanDelete(value, index)
      modifies Repr
      ensures Valid() && Grown() && Repr == old(Repr) && children == old(children)
      ensures forall x :: Has(x) <==> old(Has(x)) && x != value[index..]
      ensures r <==> Bare()
      ensures index < |value| ==>
                var k := LetterToIndex(value[index]);
                && (forall j :: 0 <= j < 26 && j != k ==> children[j] == old(children[j]))
                && (children[k] == null || (children[k] == old(children[k]) && !children[k].Bare()))
      decreases |value| - index
    {
      if index == |value| {
        if isEntry {
          isEntry := false;
        }
        EntryFlagSet(this);
      } else {
        var nextIndex := LetterToIndex(value[index]);
        var nextChild := children[nextIndex];
        if nextChild != null {
          label Before:
          var gone := nextChild.Delete(value, index + 1);
          ghost var word := value[index..];
          assert word[1..] == value[index + 1..];
          ChildDropped@Before(this, nextIndex, word);
          if gone {
            label Dropped:
            children[nextIndex] := null;
            SlotCleared@Dropped(this, nextIndex);
          }
        }
      }
      r := IsBare();
    }

    /** Whether the node has neither the entry flag nor a child. */
    ghost predicate Bare()
      reads this, Repr
      requires Valid()
      ensures Bare() ==> forall w :: !Has(w)
    {
      !isEntry && (children == null || forall i :: 0 <= i < children.Length ==> children[i] == null)
    }

    /** The test that ends `Delete`: no entry flag and every child slot nil. */
    method IsBare() returns (r: bool)
      requires Valid()
      ensures r <==> Bare()
    {
      if isEntry {
        return false;
      }
      if children != null {
        var i := 0;
        while i < children.Length
          invariant 0 <= i <= children.Length
          invariant forall j :: 0 <= j < i ==> children[j] == null
        {
          if children[i] != null {
            return false;
          }
          i := i + 1;
        }
      }
      return true;
    }
  }

  /** A trie: the root node it owns and everything below it. */
  class Trie {
    var root: TrieNode
    ghost var Repr: set<object>

    ghost predicate Valid()
      reads this, Repr
    {
      this in Repr && root in Repr && root.Repr <= Repr && this !in root.Repr && root.Valid() && root.Grown()
    }

    /** Whether the trie stores the word `w`. */
    ghost predicate Has(w: seq<byte>)
      reads this, Repr
      requires Valid()
    {
      root.Has(w)
    }

    /** `Trie{}`: a root node with no entry flag and no child array. */
    constructor ()
      ensures Valid() && fresh(Repr) && root.children == null
      ensures forall w :: !Has(w)
    {
      root := new TrieNode();
      new;
      Repr := {this} + root.Repr;
    }

    /** Stores `value`; afterwards the trie holds exactly its old words and `value`. */
    method Insert(value: seq<byte>)
      requires Valid() && LowerFrom(value, 0)
      modifies Repr
      ensures Valid() && fresh(Repr - old(Repr)) && root == old(root) && root.children != null
      ensures forall x :: Has(x) <==> old(Has(x)) || x == value
    {
      root.Insert(value, 0);
      Repr := Repr + root.Repr;
      assert value[0..] == value;
    }

    /** Removes `value`; afterwards the trie holds exactly its old words except `value`. */
    method Delete(value: seq<byte>)
      requires Valid() && root.CanDelete(value, 0)
      modifies Repr
      ensures Valid() && Repr == old(Repr) && root == old(root) && root.children == old(root.children)
      ensures forall x :: Has(x) <==> old(Has(x)) && x != value
    {
      var _ := root.Delete(value, 0);
      assert value[0..] == value;
    }

    /**
     * `Delete` of a non-empty word faults on a trie whose root has no child
     * array yet, which is the case for `Trie{}` until the first `Insert`.
     */
    lemma BareRootCannotDelete(value: seq<byte>)
      requires Valid() && root.children == null && |value| > 0
      ensures !root.CanDelete(value, 0)
    {
    }

    /**
     * Any lower-case word can be deleted once the root has a child array,
     * and the empty word always can.
     */
    lemma CanDeleteLower(value: seq<byte>)
      requires Valid() && LowerFrom(value, 0) && (value == [] || root.children != null)
      ensures root.CanDelete(value, 0)
    {
      GrownCanDelete(root, value, 0);
    }

    /**
     * `Delete` with the missing guard: a root without a child array stores
     * no non-empty word, so there is nothing to descend into. Only lower-case
     * letters are demanded, as for `Insert`.
     */
    method DeleteGuarded(value: seq<byte>)
      requires Valid() && LowerFrom(value, 0)
      modifies Repr
      ensures Valid() && Repr == old(Repr) && root == old(root) && root.children == old(root.children)
      ensures forall x :: Has(x) <==> old(Has(x)) && x != value
    {
      if value == [] || root.children != null {
        CanDeleteLower(value);
        var _ := root.Delete(value, 0);
        assert value[0..] == value;
      } else {
        assert !root.Has(value);
      }
    }
  }

  /**
   * Deletes can follow one another: after "ab" and "a" are stored and both
   * deleted, deleting "c" is still safe and the trie stores nothing.
   */
  method InsertThenDeleteAll() returns (t: Trie)
    ensures t.Valid() && forall x :: !t.Has(x)
  {
    t := new Trie();
    t.Insert([97, 98]);
    t.Insert([97]);
    t.CanDeleteLower([97, 98]);
    t.Delete([97, 98]);
    t.CanDeleteLower([97]);
    t.Delete([97]);
    t.CanDeleteLower([99]);
    t.Delete([99]);
  }

  /**
   * Changing only the entry flag of a node changes only whether it stores
   * the empty word.
   */
  twostate lemma EntryFlagSet(new n: TrieNode)
    requires old(allocated(n)) && old(n.Valid())
    requires unchanged(old(n.Repr) - {n}) && n.children == old(n.children) && n.Repr == old(n.Repr)
    ensures n.Valid() && (old(n.Grown()) ==> n.Grown())
    ensures forall x :: n.Has(x) <==> if x == [] then n.isEntry else old(n.Has(x))
  {
    if old(n.Grown()) && n.children != null {
      forall i | 0 <= i < 26 && n.children[i] != null
        ensures n.children[i].children != null && n.children[i].Grown()
      {
        assert n.children[i] == old(n.children[i]);
      }
    }
    forall x ensures n.Has(x) <==> if x == [] then n.isEntry else old(n.Has(x)) {
      if |x| > 0 {
        var c := n.Child(x[0]);
        assert c == old(n.Child(x[0]));
        assert c != null ==> unchanged(c.Repr) && (c.Has(x[1..]) <==> old(c.Has(x[1..])));
      }
    }
  }

  /**
   * After slot `k` of `n` got a valid child whose footprint holds only the
   * slot's old footprint and new objects, and nothing else of `n` changed,
   * `n` is valid and every word not starting with slot `k`'s letter is
   * stored exactly as before.
   */
  twostate lemma SlotUpdated(new n: TrieNode, k: int)
    requires old(allocated(n)) && old(n.Valid()) && old(n.children) != null && 0 <= k < 26
    requires n.children == old(n.children) && n.isEntry == old(n.isEntry)
    requires forall j :: 0 <= j < 26 && j != k ==> n.children[j] == old(n.children[j])
    requires n.children[k] != null && n.children[k].Valid()
    requires n !in n.children[k].Repr && n.children !in n.children[k].Repr
    requires fresh(n.children[k].Repr - old(n.SlotRepr(k)))
    requires n.Repr == old(n.Repr) + n.children[k].Repr
    requires unchanged(old(n.Repr) - old(n.SlotRepr(k)) - {n, n.children})
    ensures n.Valid()
    ensures forall x :: |x| > 0 && LetterToIndex(x[0]) != k ==> (n.Has(x) <==> old(n.Has(x)))
    ensures old(n.GrownExcept(k)) && n.children[k].children != null && n.children[k].Grown() ==> n.Grown()
  {
    if old(n.GrownExcept(k)) && n.children[k].children != null && n.children[k].Grown() {
      forall i | 0 <= i < 26 && i != k && n.children[i] != null
        ensures n.children[i].children != null && n.children[i].Grown()
      {
        assert n.children[i] == old(n.children[i]);
      }
    }
    forall x | |x| > 0 && LetterToIndex(x[0]) != k
      ensures n.Has(x) <==> old(n.Has(x))
    {
      assert n.Child(x[0]) == old(n.Child(x[0]));
    }
  }

  /**
   * When, in addition, the child in slot `k` now stores exactly what it
   * stored before plus the rest of `w`, whose first letter belongs to slot
   * `k`, then `n` stores exactly what it stored before plus `w`.
   */
  twostate lemma ChildStored(new n: TrieNode, k: int, new w: seq<byte>)
    requires old(allocated(n)) && old(n.Valid()) && old(n.children) != null && 0 <= k < 26
    requires n.children == old(n.children) && n.isEntry == old(n.isEntry)
    requires forall j :: 0 <= j < 26 && j != k ==> n.children[j] == old(n.children[j])
    requires n.children[k] != null && n.children[k].Valid()
    requires n !in n.children[k].Repr && n.children !in n.children[k].Repr
    requires fresh(n.children[k].Repr - old(n.SlotRepr(k)))
    requires n.Repr == old(n.Repr) + n.children[k].Repr
    requires unchanged(old(n.Repr) - old(n.SlotRepr(k)) - {n, n.children})
    requires |w| > 0 && LetterToIndex(w[0]) == k && old(n.children[k]) != null
    requires forall x :: n.children[k].Has(x) <==> old(n.children[k].Has(x)) || x == w[1..]
    ensures n.Valid()
    ensures forall x :: n.Has(x) <==> old(n.Has(x)) || x == w
    ensures old(n.GrownExcept(k)) && n.children[k].children != null && n.children[k].Grown() ==> n.Grown()
  {
    SlotUpdated(n, k);
    forall x ensures n.Has(x) <==> old(n.Has(x)) || x == w {
      if |x| > 0 && LetterToIndex(x[0]) == k {
        LetterToIndexInjective(x[0], w[0]);
        assert x == w <==> x[1..] == w[1..];
      }
    }
  }

  /**
   * When, in addition to the conditions of `SlotUpdated`, the child in slot
   * `k` now stores what it stored before except the rest of `w`, whose first
   * letter belongs to slot `k`, then `n` stores what it stored before except `w`.
   */
  twostate lemma ChildDropped(new n: TrieNode, k: int, new w: seq<byte>)
    requires old(allocated(n)) && old(n.Valid()) && old(n.children) != null && 0 <= k < 26
    requires n.children == old(n.children) && n.isEntry == old(n.isEntry)
    requires forall j :: 0 <= j < 26 && j != k ==> n.children[j] == old(n.children[j])
    requires n.children[k] != null && n.children[k].Valid()
    requires n !in n.children[k].Repr && n.children !in n.children[k].Repr
    requires fresh(n.children[k].Repr - old(n.SlotRepr(k)))
    requires n.Repr == old(n.Repr) + n.children[k].Repr
    requires unchanged(old(n.Repr) - old(n.SlotRepr(k)) - {n, n.children})
    requires |w| > 0 && LetterToIndex(w[0]) == k && old(n.children[k]) != null
    requires forall x :: n.children[k].Has(x) <==> old(n.children[k].Has(x)) && x != w[1..]
    ensures n.Valid()
    ensures forall x :: n.Has(x) <==> old(n.Has(x)) && x != w
    ensures old(n.GrownExcept(k)) && n.children[k].children != null && n.children[k].Grown() ==> n.Grown()
  {
    SlotUpdated(n, k);
    forall x ensures n.Has(x) <==> old(n.Has(x)) && x != w {
      if |x| > 0 && LetterToIndex(x[0]) == k {
        LetterToIndexInjective(x[0], w[0]);
        assert x == w <==> x[1..] == w[1..];
      }
    }
  }

  /** Setting a slot that holds a bare child to nil changes no stored word. */
  twostate lemma SlotCleared(new n: TrieNode, k: int)
    requires old(allocated(n)) && old(n.Valid()) && old(n.children) != null && 0 <= k < 26
    requires n.children == old(n.children) && n.isEntry == old(n.isEntry) && n.Repr == old(n.Repr)
    requires old(n.children[k]) != null && old(n.children[k].Bare())
    requires n.children[k] == null && forall j :: 0 <= j < 26 && j != k ==> n.children[j] == old(n.children[j])
    requires unchanged(old(n.Repr) - {n.children})
    ensures n.Valid() && (old(n.Grown()) ==> n.Grown())
    ensures forall x :: n.Has(x) <==> old(n.Has(x))
  {
    if old(n.Grown()) {
      forall i | 0 <= i < 26 && n.children[i] != null
        ensures n.children[i].children != null && n.children[i].Grown()
      {
        assert n.children[i] == old(n.children[i]);
      }
    }
    forall x ensures n.Has(x) <==> old(n.Has(x)) {
      if |x| > 0 && LetterToIndex(x[0]) != k {
        var c := n.Child(x[0]);
        assert c == old(n.Child(x[0]));
        assert c != null ==> unchanged(c.Repr) && (c.Has(x[1..]) <==> old(c.Has(x[1..])));
      }
    }
  }

  /**
   * Below a root that meets `Grown`, `Delete` of a lower-case word faults
   * nowhere: every node it reaches before the end of the word has a child array.
   */
  lemma {:induction false} GrownCanDelete(n: TrieNode, value: seq<byte>, index: nat)
    requires n.Valid() && n.Grown() && index <= |value| && LowerFrom(value, index)
    requires index < |value| ==> n.children != null
    ensures n.CanDelete(value, index)
    decreases |value| - index
  {
    if index < |value| {
      var c := n.Child(value[index]);
      if c != null {
        GrownCanDelete(c, value, index + 1);
      }
    }
  }
}
