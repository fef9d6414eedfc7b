/**
 * The class-list algebra of the helper, on values: the `class` attribute is an
 * `Option<string>` (`None` when the node has no such attribute), its class list
 * is the lowercased value split on whitespace runs, and adding or removing
 * classes rebuilds that list and writes it back joined with single spaces.
 */
module Classes {
  import opened Wrappers
  import opened Text
  import Seqs

  /** The helper's `classList`: `[]` without an attribute, else the lowercased value split on `\s+`. */
  function Tokens(attr: Option<string>): (r: seq<string>)
    ensures r == [] <==> attr == None
  {
    match attr
    case None => []
    case Some(v) => Split(Lower(v))
  }

  /** How each argument is normalised before use: `strtolower(trim($class))`. */
  function Normalize(c: string): string {
    Lower(Trim(c))
  }

  function Normalized(cs: seq<string>): seq<string> {
    seq(|cs|, i requires 0 <= i < |cs| => Normalize(cs[i]))
  }

  /** The loop of `classListAdd`: append each normalised argument not yet in the list. */
  function AddAll(list: seq<string>, classes: seq<string>): seq<string>
    decreases |classes|
  {
    if classes == [] then list
    else
      var acc := AddAll(list, classes[..|classes| - 1]);
      var c := Normalize(classes[|classes| - 1]);
      if c in acc then acc else acc + [c]
  }

  /** The loop of `classListRemove`: delete the first occurrence of each normalised argument. */
  function RemoveAll(list: seq<string>, classes: seq<string>): seq<string>
    decreases |classes|
  {
    if classes == [] then list
    else Seqs.RemoveFirst(RemoveAll(list, classes[..|classes| - 1]), Normalize(classes[|classes| - 1]))
  }

  /** The attribute after `classListAdd(node, ...classes)`: always written. */
  function Added(attr: Option<string>, classes: seq<string>): (r: Option<string>)
    ensures r.Some?
  {
    Some(Join(AddAll(Tokens(attr), classes)))
  }

  /** The attribute after `classListRemove(node, ...classes)`: untouched when absent, else rewritten. */
  function Removed(attr: Option<string>, classes: seq<string>): (r: Option<string>)
    ensures r == None <==> attr == None
  {
    var list := Tokens(attr);
    if list == [] then attr else Some(Join(RemoveAll(list, classes)))
  }

  /** A class argument that survives a write and a re-read as one token: nonempty and without whitespace. */
  predicate Plain(c: string) {
    Normalize(c) != "" && NoSpace(Normalize(c))
  }

  /** An attribute whose value does not end in whitespace (so its last token is not an empty one). */
  predicate NoTrailingSpace(attr: Option<string>) {
    attr == None || attr.value == "" || !IsSpace(attr.value[|attr.value| - 1])
  }

  // ---------------------------------------------------------------------------
  // Reading

  /** Joining the class list gives the lowercased attribute with each whitespace run collapsed. */
  lemma {:induction false} TokensCollapse(v: string)
    ensures Join(Tokens(Some(v))) == Collapse(Lower(v))
  {
    JoinSplit(Lower(v));
  }

  /** A present attribute reads as a list of Split's shape whose classes are lowercase. */
  lemma {:induction false} TokensShape(attr: Option<string>)
    requires attr.Some?
    ensures WellSplit(Tokens(attr))
    ensures forall i :: 0 <= i < |Tokens(attr)| ==> AllLower(Tokens(attr)[i])
  {
    SplitLower(Lower(attr.value));
  }

  /** An attribute that is present but empty reads as one empty class. */
  lemma {:induction false} TokensEmptyAttribute()
    ensures Tokens(Some("")) == [""]
  {
    assert Lower("") == "";
  }

  /** The last token is empty exactly when the value is empty or ends in whitespace. */
  lemma {:induction false} TokensLast(attr: Option<string>)
    requires attr.Some?
    ensures Tokens(attr)[|Tokens(attr)| - 1] == "" <==> !NoTrailingSpace(attr) || attr.value == ""
  {
    var v := attr.value;
    var l := Lower(v);
    assert (l == "" || IsSpace(l[|l| - 1])) <==> (!NoTrailingSpace(attr) || v == "") by {
      if v != "" {
        LowerKeepsSpace(v);
      }
    }
    SplitLast(l);
  }

  /** A token list of the shape Split produces reads back unchanged after being written. */
  lemma {:induction false} TokensOfJoin(ts: seq<string>)
    requires WellSplit(ts) && forall i :: 0 <= i < |ts| ==> AllLower(ts[i])
    ensures Tokens(Some(Join(ts))) == ts
  {
    JoinLower(ts);
    LowerFixed(Join(ts));
    SplitJoin(ts);
  }

  /**
   * `strtolower(trim(c))` is lowercase, has no trim character at either end,
   * and equals `trim(strtolower(c))`.
   */
  lemma {:induction false} NormalizeShape(c: string)
    ensures AllLower(Normalize(c)) && Normalize(c) == Trim(Lower(c))
    ensures var n := Normalize(c); n == [] || (!IsTrimChar(n[0]) && !IsTrimChar(n[|n| - 1]))
  {
    LowerTrim(c);
  }

  /** Case variants of an argument normalise alike. */
  lemma {:induction false} NormalizeCaseInsensitive(c: string, d: string)
    requires Lower(c) == Lower(d)
    ensures Normalize(c) == Normalize(d)
  {
    LowerTrim(c);
    LowerTrim(d);
  }

  // ---------------------------------------------------------------------------
  // Adding

  lemma {:induction false} AddAllLast(list: seq<string>, classes: seq<string>)
    requires classes != []
    ensures Normalized(classes) == Normalized(classes[..|classes| - 1]) + [Normalize(classes[|classes| - 1])]
  {
  }

  /** One step of the add loop. */
  lemma {:induction false} AddAllStep(list: seq<string>, classes: seq<string>)
    requires classes != []
    ensures var acc := AddAll(list, classes[..|classes| - 1]);
      var n := Normalize(classes[|classes| - 1]);
      AddAll(list, classes) == if n in acc then acc else acc + [n]
  {
  }

  /** The old list is an unchanged prefix, and every normalised argument is now a member. */
  lemma {:induction false} AddAllPrefix(list: seq<string>, classes: seq<string>)
    ensures |AddAll(list, classes)| >= |list| && AddAll(list, classes)[..|list|] == list
    ensures forall t :: t in Normalized(classes) ==> t in AddAll(list, classes)
    decreases |classes|
  {
    if classes != [] {
      AddAllPrefix(list, classes[..|classes| - 1]);
      AddAllStep(list, classes);
      AddAllLast(list, classes);
    }
  }

  /** Each appended class is a normalised argument that was not in the old list. */
  lemma {:induction false} AddAllFresh(list: seq<string>, classes: seq<string>)
    ensures var r := AddAll(list, classes);
      |r| >= |list| && forall p :: |list| <= p < |r| ==> r[p] !in list && r[p] in Normalized(classes)
    decreases |classes|
  {
    AddAllPrefix(list, classes);
    if classes != [] {
      var init := classes[..|classes| - 1];
      var n := Normalize(classes[|classes| - 1]);
      AddAllLast(list, classes);
      AddAllStep(list, classes);
      AddAllFresh(list, init);
      AddAllPrefix(list, init);
      var acc := AddAll(list, init);
      if n !in acc {
        assert acc[..|list|] == list;
      }
    }
  }

  /** No class is appended twice. */
  lemma {:induction false} AddAllNoDup(list: seq<string>, classes: seq<string>)
    ensures var r := AddAll(list, classes);
      |r| >= |list| && forall p, q :: |list| <= p < q < |r| ==> r[p] != r[q]
    decreases |classes|
  {
    AddAllPrefix(list, classes);
    if classes != [] {
      var init := classes[..|classes| - 1];
      AddAllStep(list, classes);
      AddAllNoDup(list, init);
    }
  }

  /** Appended classes come in the order in which the arguments first name them. */
  lemma {:induction false} AddAllOrder(list: seq<string>, classes: seq<string>)
    ensures var r := AddAll(list, classes);
      |r| >= |list|
      && forall p, q :: |list| <= p < q < |r| ==>
           r[p] in Normalized(classes) && r[q] in Normalized(classes)
           && Seqs.IndexOf(Normalized(classes), r[p]) < Seqs.IndexOf(Normalized(classes), r[q])
    decreases |classes|
  {
    var r := AddAll(list, classes);
    AddAllPrefix(list, classes);
    AddAllFresh(list, classes);
    if classes != [] {
      var init := classes[..|classes| - 1];
      var n := Normalize(classes[|classes| - 1]);
      var ns0 := Normalized(init);
      var ns := Normalized(classes);
      AddAllLast(list, classes);
      AddAllStep(list, classes);
      AddAllOrder(list, init);
      AddAllFresh(list, init);
      AddAllPrefix(list, init);
      var acc := AddAll(list, init);
      forall p, q | |list| <= p < q < |r|
        ensures r[p] in ns && r[q] in ns && Seqs.IndexOf(ns, r[p]) < Seqs.IndexOf(ns, r[q])
      {
        assert r[p] == acc[p] && acc[p] in ns0;
        Seqs.IndexOfAppend(ns0, [n], r[p]);
        if q < |acc| {
          assert r[q] == acc[q] && acc[q] in ns0;
          Seqs.IndexOfAppend(ns0, [n], r[q]);
        } else {
          assert r[q] == n && n !in acc;
          assert n !in ns0;
          Seqs.IndexOfAppendFresh(ns0, [n], n);
        }
      }
    }
  }

  /** Arguments that are all present already change nothing. */
  lemma {:induction false} AddAllPresent(list: seq<string>, classes: seq<string>)
    requires forall t :: t in Normalized(classes) ==> t in list
    ensures AddAll(list, classes) == list
    decreases |classes|
  {
    if classes != [] {
      AddAllLast(list, classes);
      AddAllPresent(list, classes[..|classes| - 1]);
      AddAllStep(list, classes);
    }
  }

  /** Adding the same classes twice builds the same list as adding them once. */
  lemma {:induction false} AddAllIdempotent(list: seq<string>, classes: seq<string>)
    ensures AddAll(AddAll(list, classes), classes) == AddAll(list, classes)
  {
    AddAllPrefix(list, classes);
    AddAllPresent(AddAll(list, classes), classes);
  }

  /** Plain arguments normalise to nonempty lowercase classes without whitespace. */
  lemma {:induction false} PlainNormalized(classes: seq<string>)
    requires forall i :: 0 <= i < |classes| ==> Plain(classes[i])
    ensures forall t :: t in Normalized(classes) ==> t != "" && NoSpace(t) && AllLower(t)
  {
    var ns := Normalized(classes);
    forall t | t in ns ensures t != "" && NoSpace(t) && AllLower(t) {
      var i :| 0 <= i < |ns| && ns[i] == t;
      assert Plain(classes[i]);
    }
  }

  /** With plain arguments and no trailing whitespace, the list `classListAdd` builds has Split's shape. */
  lemma {:induction false} AddAllWellSplit(attr: Option<string>, classes: seq<string>)
    requires NoTrailingSpace(attr)
    requires forall i :: 0 <= i < |classes| ==> Plain(classes[i])
    requires attr != None || classes != []
    ensures WellSplit(AddAll(Tokens(attr), classes))
    ensures forall i :: 0 <= i < |AddAll(Tokens(attr), classes)| ==> AllLower(AddAll(Tokens(attr), classes)[i])
  {
    var list := Tokens(attr);
    var r := AddAll(list, classes);
    var ns := Normalized(classes);
    PlainNormalized(classes);
    AddAllPrefix(list, classes);
    AddAllFresh(list, classes);
    assert |r| >= 1 by {
      if attr == None {
        assert ns[0] in ns;
      }
    }
    if |list| > 1 {
      assert attr.Some? && attr.value != "" by {
        if attr == Some("") {
          TokensEmptyAttribute();
        }
      }
      TokensLast(attr);
    }
    if attr.Some? {
      TokensShape(attr);
    }
    WellSplitGrow(list, r);
    forall i | 0 <= i < |r| ensures AllLower(r[i]) {
      if i < |list| {
        assert r[i] == r[..|list|][i];
      }
    }
  }

  /** The list `classListAdd` writes reads back as itself, for plain arguments and no trailing whitespace. */
  lemma {:induction false} AddedTokens(attr: Option<string>, classes: seq<string>)
    requires NoTrailingSpace(attr)
    requires forall i :: 0 <= i < |classes| ==> Plain(classes[i])
    ensures attr == None && classes == [] ==> Tokens(Added(attr, classes)) == [""]
    ensures attr != None || classes != [] ==> Tokens(Added(attr, classes)) == AddAll(Tokens(attr), classes)
  {
    if attr == None && classes == [] {
      TokensEmptyAttribute();
    } else {
      AddAllWellSplit(attr, classes);
      TokensOfJoin(AddAll(Tokens(attr), classes));
    }
  }

  /**
   * `classListAdd` applied twice with the same classes writes the same
   * attribute as applied once (for plain arguments and no trailing whitespace).
   */
  lemma {:induction false} AddedIdempotent(attr: Option<string>, classes: seq<string>)
    requires NoTrailingSpace(attr)
    requires forall i :: 0 <= i < |classes| ==> Plain(classes[i])
    ensures Added(Added(attr, classes), classes) == Added(attr, classes)
  {
    AddedTokens(attr, classes);
    if attr == None && classes == [] {
      assert Join([""]) == "";
    } else {
      AddAllIdempotent(Tokens(attr), classes);
    }
  }

  // ---------------------------------------------------------------------------
  // Removing

  /** Each argument takes exactly one copy of its normalised form out of the list, when there is one. */
  lemma {:induction false} RemoveAllMultiset(list: seq<string>, classes: seq<string>)
    ensures multiset(RemoveAll(list, classes)) == multiset(list) - multiset(Normalized(classes))
    decreases |classes|
  {
    if classes != [] {
      var init := classes[..|classes| - 1];
      var n := Normalize(classes[|classes| - 1]);
      RemoveAllMultiset(list, init);
      Seqs.RemoveFirstMultiset(RemoveAll(list, init), n);
      AddAllLast(list, classes);
      assert multiset(Normalized(classes)) == multiset(Normalized(init)) + multiset{n};
    }
  }

  /** The classes that remain keep their relative order. */
  lemma {:induction false} RemoveAllIsSubseq(list: seq<string>, classes: seq<string>)
    ensures Seqs.IsSubseq(RemoveAll(list, classes), list)
    decreases |classes|
  {
    if classes == [] {
      Seqs.SubseqRefl(list);
    } else {
      var init := classes[..|classes| - 1];
      var n := Normalize(classes[|classes| - 1]);
      RemoveAllIsSubseq(list, init);
      Seqs.RemoveFirstIsSubseq(RemoveAll(list, init), n);
      Seqs.SubseqTrans(RemoveAll(list, classes), RemoveAll(list, init), list);
    }
  }

  /** One argument removes the first occurrence of its normalised form and nothing else. */
  lemma {:induction false} RemoveOne(list: seq<string>, c: string)
    ensures Normalize(c) !in list ==> RemoveAll(list, [c]) == list
    ensures Normalize(c) in list ==>
      RemoveAll(list, [c]) == list[..Seqs.IndexOf(list, Normalize(c))] + list[Seqs.IndexOf(list, Normalize(c)) + 1..]
  {
    assert [c][..0] == [];
    Seqs.RemoveFirstAt(list, Normalize(c));
  }

  /** Removing one class from a lowercase list of Split's shape keeps that shape, unless nothing is left. */
  lemma {:induction false} RemoveFirstShape(ts: seq<string>, x: string)
    requires WellSplit(ts) && forall i :: 0 <= i < |ts| ==> AllLower(ts[i])
    ensures var r := Seqs.RemoveFirst(ts, x);
      r == [] || (WellSplit(r) && forall i :: 0 <= i < |r| ==> AllLower(r[i]))
  {
    Seqs.RemoveFirstAt(ts, x);
    if x in ts {
      var k := Seqs.IndexOf(ts, x);
      var r := Seqs.RemoveFirst(ts, x);
      forall i | 0 <= i < |r| ensures r[i] == (if i < k then ts[i] else ts[i + 1]) {
      }
    }
  }

  /** The remove loop keeps a lowercase list of Split's shape in that shape, unless it empties it. */
  lemma {:induction false} RemoveAllShape(list: seq<string>, classes: seq<string>)
    requires WellSplit(list) && forall i :: 0 <= i < |list| ==> AllLower(list[i])
    ensures var r := RemoveAll(list, classes);
      r == [] || (WellSplit(r) && forall i :: 0 <= i < |r| ==> AllLower(r[i]))
    decreases |classes|
  {
    if classes != [] {
      var init := classes[..|classes| - 1];
      RemoveAllShape(list, init);
      var acc := RemoveAll(list, init);
      if acc != [] {
        RemoveFirstShape(acc, Normalize(classes[|classes| - 1]));
      }
    }
  }

  /**
   * After `classListRemove` a present attribute reads back as the list the
   * loop left, or as one empty class when the loop removed every class; an
   * absent attribute still reads as no classes.
   */
  lemma {:induction false} RemovedTokens(attr: Option<string>, classes: seq<string>)
    ensures attr == None ==> Tokens(Removed(attr, classes)) == []
    ensures attr.Some? ==>
      var r := RemoveAll(Tokens(attr), classes);
      Tokens(Removed(attr, classes)) == if r == [] then [""] else r
  {
    if attr.Some? {
      var r := RemoveAll(Tokens(attr), classes);
      TokensShape(attr);
      RemoveAllShape(Tokens(attr), classes);
      if r == [] {
        TokensEmptyAttribute();
      } else {
        TokensOfJoin(r);
      }
    }
  }

  /** Removing every class of a one-class attribute leaves the attribute present but empty. */
  lemma {:induction false} RemoveLastClass(c: string)
    requires Plain(c)
    ensures Removed(Some(Normalize(c)), [c]) == Some("")
  {
    var n := Normalize(c);
    assert Lower(n) == n by {
      NormalizeShape(c);
      LowerFixed(n);
    }
    assert Split(n) == [n] by {
      SplitJoin([n]);
    }
    assert RemoveAll([n], [c]) == [] by {
      assert [c][..0] == [];
    }
  }

  /**
   * Adding a fresh plain class and then removing any argument that normalises
   * to the same class (a case variant, or one with extra surrounding blanks)
   * restores the class list, when the attribute has no trailing whitespace.
   * Starting from no attribute, the round trip leaves an empty attribute.
   */
  lemma {:induction false} AddThenRemove(attr: Option<string>, c: string, d: string)
    requires NoTrailingSpace(attr)
    requires Plain(c) && Normalize(c) !in Tokens(attr)
    requires Normalize(d) == Normalize(c)
    ensures attr.Some? ==> Tokens(Removed(Added(attr, [c]), [d])) == Tokens(attr)
    ensures attr == None ==> Removed(Added(attr, [c]), [d]) == Some("")
  {
    var list := Tokens(attr);
    var n := Normalize(c);
    assert AddAll(list, [c]) == list + [n] by {
      assert [c][..0] == [];
    }
    assert Tokens(Added(attr, [c])) == list + [n] by {
      AddedTokens(attr, [c]);
    }
    assert RemoveAll(list + [n], [d]) == list by {
      assert [d][..0] == [];
      Seqs.RemoveFirstAppended(list, n);
    }
    if attr.Some? {
      TokensShape(attr);
      TokensOfJoin(list);
    }
  }

  // ---------------------------------------------------------------------------
  // Edge cases of the code as written

  /** With no arguments and no attribute, `classListAdd` still creates an empty attribute. */
  lemma {:induction false} AddNothingCreatesAttribute()
    ensures Added(None, []) == Some("")
  {
  }

  /** Adding to an attribute that is present but empty keeps the empty token in front. */
  lemma {:induction false} AddToEmptyAttribute(c: string)
    requires Normalize(c) != ""
    ensures Added(Some(""), [c]) == Some(" " + Normalize(c))
  {
    var n := Normalize(c);
    TokensEmptyAttribute();
    assert AddAll([""], [c]) == ["", n] by {
      assert [c][..0] == [];
    }
    assert Join(["", n]) == "" + " " + Join([n]) by {
      assert ["", n][1..] == [n];
    }
    assert "" + " " + Join([n]) == " " + n;
  }
}
