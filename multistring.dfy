/**
 * `ktu::basic_multi_string<CharT>` (`ktu/multi_string.hpp`): many strings
 * packed end to end in one cumulative string.
 *
 * Each element is a node `(index, size)` naming a stretch of the cumulative
 * string. Text appended after the last element and not yet pushed as an
 * element is the building substring; it starts at `buildingIndex`.
 */
module MultiStrings {
  import opened Bytes

  /** `node_type`: where an element starts in the cumulative string, and its length. */
  datatype Span = Span(index: nat, size: nat)

  /** `priv`: the cumulative string, the nodes and `buildingIndex`. */
  datatype Table<C> = Table(text: seq<C>, nodes: seq<Span>, building: nat)

  /** Where a node's characters end. */
  function End(n: Span): nat
  {
    n.index + n.size
  }

  /** Node `i` starts where node `i - 1` ends. */
  predicate Follows(nodes: seq<Span>, i: nat)
    requires 0 < i < |nodes|
  {
    nodes[i].index == End(nodes[i - 1])
  }

  /**
   * The nodes tile the cumulative string from its start: the first one at 0,
   * each one where the one before it ends, and the building substring where
   * the last one ends.
   */
  predicate Adjacent(nodes: seq<Span>, building: nat)
  {
    (|nodes| == 0 ==> building == 0) &&
    (|nodes| > 0 ==> nodes[0].index == 0 && End(nodes[|nodes| - 1]) == building) &&
    forall i :: 0 < i < |nodes| ==> Follows(nodes, i)
  }

  /** A multi-string whose nodes tile `text[..building]`. */
  predicate Wellformed<C>(t: Table<C>)
  {
    Adjacent(t.nodes, t.building) && t.building <= |t.text|
  }

  /** An earlier node ends no later than a later one starts. */
  lemma {:induction false} EndsBefore(nodes: seq<Span>, building: nat, i: nat, j: nat)
    requires Adjacent(nodes, building) && i < j < |nodes|
    ensures End(nodes[i]) <= nodes[j].index
    decreases j
  {
    assert Follows(nodes, j);
    if i < j - 1 {
      EndsBefore(nodes, building, i, j - 1);
    }
  }

  /** Every node after node `k` starts no earlier than node `k` ends. */
  lemma Later(nodes: seq<Span>, building: nat, k: nat)
    requires Adjacent(nodes, building) && k < |nodes|
    ensures forall j :: k < j < |nodes| ==> End(nodes[k]) <= nodes[j].index
  {
    forall j | k < j < |nodes|
      ensures End(nodes[k]) <= nodes[j].index
    {
      EndsBefore(nodes, building, k, j);
    }
  }

  /** Every node ends at or before the building substring. */
  lemma Within(nodes: seq<Span>, building: nat)
    requires Adjacent(nodes, building)
    ensures forall i :: 0 <= i < |nodes| ==> End(nodes[i]) <= building
  {
    forall i | 0 <= i < |nodes|
      ensures End(nodes[i]) <= building
    {
      if i < |nodes| - 1 {
        EndsBefore(nodes, building, i, |nodes| - 1);
      }
    }
  }

  /** Element `i`: the characters its node names. */
  function Element<C>(t: Table<C>, i: nat): (r: seq<C>)
    requires Wellformed(t) && i < |t.nodes|
    ensures |r| == t.nodes[i].size
  {
    Within(t.nodes, t.building);
    t.text[t.nodes[i].index..End(t.nodes[i])]
  }

  /** The elements in order: what iteration from `begin()` yields. */
  function Strings<C>(t: Table<C>): (r: seq<seq<C>>)
    requires Wellformed(t)
    ensures |r| == |t.nodes| && forall i :: 0 <= i < |r| ==> r[i] == Element(t, i)
  {
    seq(|t.nodes|, i requires 0 <= i < |t.nodes| => Element(t, i))
  }

  /** The building substring: everything after `buildingIndex`. */
  function Pending<C>(t: Table<C>): seq<C>
    requires t.building <= |t.text|
  {
    t.text[t.building..]
  }

  /** A slice of a suffix is the slice of the whole text moved by where the suffix starts. */
  lemma SuffixSlice<C>(text: seq<C>, from: nat, pos: nat, n: nat)
    requires from + pos + n <= |text|
    ensures text[from..][pos..pos + n] == text[from + pos..from + pos + n]
  {
  }

  /** The strings written one after another. */
  function Concat<C>(ss: seq<seq<C>>): seq<C>
  {
    if |ss| == 0 then [] else ss[0] + Concat(ss[1..])
  }

  /** From the start of element `j` on, the text is elements `j..` followed by the building substring. */
  lemma {:induction false} SuffixIsConcat<C>(t: Table<C>, j: nat)
    requires Wellformed(t) && j <= |t.nodes|
    ensures var start := if j == |t.nodes| then t.building else t.nodes[j].index;
      start <= |t.text| && t.text[start..] == Concat(Strings(t)[j..]) + Pending(t)
    decreases |t.nodes| - j
  {
    Within(t.nodes, t.building);
    var s := Strings(t);
    if j < |t.nodes| {
      SuffixIsConcat(t, j + 1);
      var next := if j + 1 == |t.nodes| then t.building else t.nodes[j + 1].index;
      if j + 1 < |t.nodes| {
        assert Follows(t.nodes, j + 1);
      }
      assert next == End(t.nodes[j]);
      assert s[j..][1..] == s[j + 1..];
      calc {
        t.text[t.nodes[j].index..];
        t.text[t.nodes[j].index..next] + t.text[next..];
        s[j] + (Concat(s[j + 1..]) + Pending(t));
        Concat(s[j..]) + Pending(t);
      }
    }
  }

  /**
   * From offset `at` of element `k` the text reads the rest of the element,
   * then the later elements and the building substring.
   */
  lemma SubstrOfSuffix<C>(t: Table<C>, k: nat, at: nat, n: nat)
    requires Wellformed(t) && k < |t.nodes| && at <= t.nodes[k].size
    requires t.nodes[k].index + at + n <= |t.text|
    ensures var e := Strings(t)[k]; var after := Concat(Strings(t)[k + 1..]) + Pending(t);
      |t.text| - (t.nodes[k].index + at) == |e| - at + |after| &&
      t.text[t.nodes[k].index + at..t.nodes[k].index + at + n] == (e[at..] + after)[..n]
  {
    var s := Strings(t);
    SuffixIsConcat(t, k);
    assert s[k..][1..] == s[k + 1..];
    var rest := t.text[t.nodes[k].index..];
    assert rest == s[k] + (Concat(s[k + 1..]) + Pending(t));
    assert t.text[t.nodes[k].index + at..] == rest[at..];
  }

  /**
   * Up to `count` characters (the rest of `e` for `None`) of `e` from `at`
   * and then of `after`: within `e` a slice of it, past its end all of its
   * rest followed by the start of `after`.
   */
  lemma SubstrCases<C>(e: seq<C>, after: seq<C>, at: nat, count: Option<nat>, n: nat)
    requires at <= |e| && n == Clamp(if count.None? then Some(|e| - at) else count, |e| - at + |after|)
    ensures count.None? ==> (e[at..] + after)[..n] == e[at..]
    ensures count.Some? && at + count.value <= |e| ==> (e[at..] + after)[..n] == e[at..at + count.value]
    ensures count.Some? && at + count.value > |e| ==>
      (e[at..] + after)[..n] == e[at..] + after[..Clamp(Some(at + count.value - |e|), |after|)]
  {
    if count.Some? && at + count.value > |e| {
      var m := Clamp(Some(at + count.value - |e|), |after|);
      assert n == |e| - at + m;
      assert (e[at..] + after)[..n] == e[at..] + after[..m];
    }
  }

  /** What `substring_substr` reads, in terms of the elements and the building substring. */
  lemma SubstrOfElement<C>(t: Table<C>, k: nat, at: nat, count: Option<nat>, e: seq<C>, after: seq<C>, start: nat, n: nat)
    requires Wellformed(t) && k < |t.nodes| && at <= t.nodes[k].size
    requires e == Strings(t)[k] && after == Concat(Strings(t)[k + 1..]) + Pending(t)
    requires start == t.nodes[k].index + at && start <= |t.text|
    requires n == Clamp(if count.None? then Some(t.nodes[k].size - at) else count, |t.text| - start)
    ensures count.None? ==> t.text[start..start + n] == e[at..]
    ensures count.Some? && at + count.value <= |e| ==> t.text[start..start + n] == e[at..at + count.value]
    ensures count.Some? && at + count.value > |e| ==>
      t.text[start..start + n] == e[at..] + after[..Clamp(Some(at + count.value - |e|), |after|)]
  {
    SubstrOfSuffix(t, k, at, n);
    SubstrCases(e, after, at, count, n);
  }

  /**
   * The cumulative string is the elements written in order followed by the
   * building substring.
   */
  lemma TextIsConcat<C>(t: Table<C>)
    requires Wellformed(t)
    ensures t.text == Concat(Strings(t)) + Pending(t)
  {
    SuffixIsConcat(t, 0);
    assert Strings(t)[0..] == Strings(t);
  }

  /** `text` with `count` characters at `at` replaced by `s`. */
  function Splice<C>(text: seq<C>, at: nat, count: nat, s: seq<C>): (r: seq<C>)
    requires at + count <= |text|
    ensures |r| == |text| - count + |s|
  {
    text[..at] + s + text[at + count..]
  }

  /** A splice leaves the text before it alone. */
  lemma SliceBefore<C>(text: seq<C>, at: nat, count: nat, s: seq<C>, a: nat, e: nat)
    requires at + count <= |text| && a <= e <= at
    ensures Splice(text, at, count, s)[a..e] == text[a..e]
  {
    assert Splice(text, at, count, s)[..at] == text[..at];
  }

  /** A splice moves the text after it by the change in length. */
  lemma SliceAfter<C>(text: seq<C>, at: nat, count: nat, s: seq<C>, a: nat, e: nat)
    requires at + count <= a <= e <= |text|
    ensures Splice(text, at, count, s)[a - count + |s|..e - count + |s|] == text[a..e]
  {
    assert Splice(text, at, count, s)[at + |s|..] == text[at + count..];
  }

  /** The stretch around a splice holds what came before it, `s`, and what came after it. */
  lemma SliceAcross<C>(text: seq<C>, at: nat, count: nat, s: seq<C>, a: nat, e: nat)
    requires a <= at && at + count <= e <= |text|
    ensures Splice(text, at, count, s)[a..e - count + |s|] == text[a..at] + s + text[at + count..e]
  {
    var r := Splice(text, at, count, s);
    assert r[a..e - count + |s|] == r[a..at] + r[at..at + |s|] + r[at + |s|..e - count + |s|];
    SliceBefore(text, at, count, s, a, at);
    SliceAfter(text, at, count, s, at + count, e);
  }

  /** The nodes from `from` on moved `d` characters along the text: the loop `index += shift` up to `end()`. */
  function Moved(nodes: seq<Span>, from: nat, d: int): (r: seq<Span>)
    requires forall j :: from <= j < |nodes| ==> nodes[j].index + d >= 0
    ensures |r| == |nodes|
  {
    seq(|nodes|, j requires 0 <= j < |nodes| =>
      if j < from then nodes[j] else Span(nodes[j].index + d, nodes[j].size))
  }

  /** `priv::nodes_shift_change(pos, d)`: element `k` grows by `d` and every later node moves by `d`. */
  function Shifted(nodes: seq<Span>, k: nat, d: int): (r: seq<Span>)
    requires k < |nodes| && nodes[k].size + d >= 0
    requires forall j :: k < j < |nodes| ==> nodes[j].index + d >= 0
    ensures |r| == |nodes|
  {
    Moved(nodes[k := Span(nodes[k].index, nodes[k].size + d)], k + 1, d)
  }

  /** `push_building()`: the building substring becomes the last element. */
  function PushedBuilding<C>(t: Table<C>): (r: Table<C>)
    requires t.building <= |t.text|
  {
    Table(t.text, t.nodes + [Span(t.building, |t.text| - t.building)], |t.text|)
  }

  /** `push_building()` appends the building substring as an element and leaves none behind. */
  lemma PushBuildingAppends<C>(t: Table<C>)
    requires Wellformed(t)
    ensures var r := PushedBuilding(t);
      Wellformed(r) && Strings(r) == Strings(t) + [Pending(t)] && Pending(r) == []
  {
    var r := PushedBuilding(t);
    assert Adjacent(r.nodes, r.building) by {
      forall i | 0 < i < |r.nodes|
        ensures Follows(r.nodes, i)
      {
        if i < |t.nodes| {
          assert Follows(t.nodes, i);
        }
      }
    }
    Within(t.nodes, t.building);
    forall i | 0 <= i < |r.nodes|
      ensures Element(r, i) == (Strings(t) + [Pending(t)])[i]
    {
    }
  }

  /**
   * `insert(pos, value)`: `value` goes into the text where element `k`
   * starts, that node and every later one move along by `|value|`, and a
   * node for `value` is put at `k`. The building substring moves along too.
   */
  function Inserted<C>(t: Table<C>, k: nat, v: seq<C>): (r: Table<C>)
    requires Wellformed(t) && k < |t.nodes|
  {
    Within(t.nodes, t.building);
    var p := t.nodes[k].index;
    var m := Moved(t.nodes, k, |v|);
    Table(Splice(t.text, p, 0, v), m[..k] + [Span(p, |v|)] + m[k..], t.building + |v|)
  }

  /** `insert` as written: `buildingIndex` stays where it was. */
  function InsertedAsWritten<C>(t: Table<C>, k: nat, v: seq<C>): (r: Table<C>)
    requires Wellformed(t) && k < |t.nodes|
  {
    Inserted(t, k, v).(building := t.building)
  }

  /**
   * As written, inserting "x" before the only element "ab" leaves
   * `buildingIndex` at 2, so the building substring becomes "b": the end of
   * the element, which the next `push_back` would copy into a new element.
   */
  lemma InsertAsWrittenLeaksElement()
    ensures var t := Table(['a', 'b'], [Span(0, 2)], 2);
      Wellformed(t) && Pending(t) == [] &&
      var r := InsertedAsWritten(t, 0, ['x']);
      r.text == ['x', 'a', 'b'] && Pending(r) == ['b'] && !Wellformed(r)
  {
    var t := Table(['a', 'b'], [Span(0, 2)], 2);
    var r := InsertedAsWritten(t, 0, ['x']);
    assert r.nodes == [Span(0, 1), Span(1, 2)];
    assert r.text == ['x', 'a', 'b'];
  }

  /** Where `insert` leaves node `i`. */
  lemma InsertedNode<C>(t: Table<C>, k: nat, v: seq<C>, i: nat)
    requires Wellformed(t) && k < |t.nodes| && i <= |t.nodes|
    ensures var r := Inserted(t, k, v);
      |r.nodes| == |t.nodes| + 1 &&
      r.nodes[i] == if i < k then t.nodes[i]
        else if i == k then Span(t.nodes[k].index, |v|)
        else Span(t.nodes[i - 1].index + |v|, t.nodes[i - 1].size)
  {
  }

  /** Inserting keeps the nodes tiling the text. */
  lemma InsertedWellformed<C>(t: Table<C>, k: nat, v: seq<C>)
    requires Wellformed(t) && k < |t.nodes|
    ensures Wellformed(Inserted(t, k, v))
  {
    Within(t.nodes, t.building);
    var r := Inserted(t, k, v);
    InsertedNode(t, k, v, 0);
    InsertedNode(t, k, v, |t.nodes|);
    if k > 0 {
      assert Follows(t.nodes, k);
    }
    forall i | 0 < i < |r.nodes|
      ensures Follows(r.nodes, i)
    {
      InsertedNode(t, k, v, i);
      InsertedNode(t, k, v, i - 1);
      if i < k || i > k + 1 {
        assert Follows(t.nodes, if i < k then i else i - 1);
      }
    }
  }

  /** Element `i` after `insert`: `v` at `k`, the old elements around it. */
  lemma InsertedElement<C>(t: Table<C>, k: nat, v: seq<C>, i: nat)
    requires Wellformed(t) && k < |t.nodes| && i <= |t.nodes|
    ensures Wellformed(Inserted(t, k, v)) &&
      Element(Inserted(t, k, v), i) == if i < k then Element(t, i) else if i == k then v else Element(t, i - 1)
  {
    InsertedWellformed(t, k, v);
    InsertedNode(t, k, v, i);
    Within(t.nodes, t.building);
    var p := t.nodes[k].index;
    if i < k {
      EndsBefore(t.nodes, t.building, i, k);
      SliceBefore(t.text, p, 0, v, t.nodes[i].index, End(t.nodes[i]));
    } else if i == k {
      SliceAcross(t.text, p, 0, v, p, p);
    } else {
      if i - 1 > k {
        EndsBefore(t.nodes, t.building, k, i - 1);
      }
      SliceAfter(t.text, p, 0, v, t.nodes[i - 1].index, End(t.nodes[i - 1]));
    }
  }

  /** Inserting puts `v` at position `k` of the elements and keeps the rest. */
  lemma InsertedElements<C>(t: Table<C>, k: nat, v: seq<C>)
    requires Wellformed(t) && k < |t.nodes|
    ensures var r := Inserted(t, k, v);
      Wellformed(r) && Strings(r) == Strings(t)[..k] + [v] + Strings(t)[k..] && Pending(r) == Pending(t)
  {
    InsertedWellformed(t, k, v);
    var r := Inserted(t, k, v);
    var s := Strings(t);
    forall i | 0 <= i < |r.nodes|
      ensures Element(r, i) == (s[..k] + [v] + s[k..])[i]
    {
      InsertedElement(t, k, v, i);
    }
    Within(t.nodes, t.building);
    SliceAfter(t.text, t.nodes[k].index, 0, v, t.building, |t.text|);
  }

  /**
   * `erase(pos)`: element `k`'s characters leave the text, every later node
   * moves back by its size, and its node is removed. The building substring
   * moves back too.
   */
  function Erased<C>(t: Table<C>, k: nat): (r: Table<C>)
    requires Wellformed(t) && k < |t.nodes|
  {
    Within(t.nodes, t.building);
    var n := t.nodes[k];
    Later(t.nodes, t.building, k);
    assert End(n) <= t.building;
    var m := Moved(t.nodes, k + 1, -(n.size as int));
    Table(Splice(t.text, n.index, n.size, []), m[..k] + m[k + 1..], t.building - n.size)
  }

  /** `erase` as written: `buildingIndex` stays where it was. */
  function ErasedAsWritten<C>(t: Table<C>, k: nat): (r: Table<C>)
    requires Wellformed(t) && k < |t.nodes|
  {
    Erased(t, k).(building := t.building)
  }

  /**
   * As written, erasing the only element "ab" leaves `buildingIndex` at 2
   * past the end of the now empty string, so `building_size()` wraps
   * around.
   */
  lemma EraseAsWrittenOverruns()
    ensures var t := Table(['a', 'b'], [Span(0, 2)], 2);
      Wellformed(t) &&
      var r := ErasedAsWritten(t, 0);
      r.text == [] && r.nodes == [] && r.building == 2 && !Wellformed(r)
  {
    var t := Table(['a', 'b'], [Span(0, 2)], 2);
    assert Erased(t, 0).text == [];
  }

  /** Where `erase` leaves node `i`. */
  lemma ErasedNode<C>(t: Table<C>, k: nat, i: nat)
    requires Wellformed(t) && k < |t.nodes| && i < |t.nodes| - 1
    ensures var r := Erased(t, k);
      |r.nodes| == |t.nodes| - 1 && (i >= k ==> t.nodes[k].size <= t.nodes[i + 1].index) &&
      r.nodes[i] == if i < k then t.nodes[i] else Span(t.nodes[i + 1].index - t.nodes[k].size, t.nodes[i + 1].size)
  {
    if i >= k {
      EndsBefore(t.nodes, t.building, k, i + 1);
    }
  }

  /** Erasing keeps the nodes tiling the text. */
  lemma ErasedWellformed<C>(t: Table<C>, k: nat)
    requires Wellformed(t) && k < |t.nodes|
    ensures Wellformed(Erased(t, k))
  {
    Within(t.nodes, t.building);
    var r := Erased(t, k);
    var n := |t.nodes|;
    if n > 1 {
      ErasedNode(t, k, 0);
      ErasedNode(t, k, n - 2);
      if k + 1 < n {
        assert Follows(t.nodes, k + 1);
      }
      if k > 0 {
        assert Follows(t.nodes, k);
      }
    }
    forall i | 0 < i < |r.nodes|
      ensures Follows(r.nodes, i)
    {
      ErasedNode(t, k, i);
      ErasedNode(t, k, i - 1);
      if i < k {
        assert Follows(t.nodes, i);
      } else if i == k {
        assert Follows(t.nodes, k + 1);
        assert Follows(t.nodes, k);
      } else {
        assert Follows(t.nodes, i + 1);
      }
    }
  }

  /** Element `i` after `erase`: the old element `i`, or `i + 1` from `k` on. */
  lemma ErasedElement<C>(t: Table<C>, k: nat, i: nat)
    requires Wellformed(t) && k < |t.nodes| && i < |t.nodes| - 1
    ensures Wellformed(Erased(t, k)) &&
      Element(Erased(t, k), i) == if i < k then Element(t, i) else Element(t, i + 1)
  {
    ErasedWellformed(t, k);
    ErasedNode(t, k, i);
    Within(t.nodes, t.building);
    var n := t.nodes[k];
    if i < k {
      EndsBefore(t.nodes, t.building, i, k);
      SliceBefore(t.text, n.index, n.size, [], t.nodes[i].index, End(t.nodes[i]));
    } else {
      EndsBefore(t.nodes, t.building, k, i + 1);
      SliceAfter(t.text, n.index, n.size, [], t.nodes[i + 1].index, End(t.nodes[i + 1]));
    }
  }

  /** Erasing removes exactly element `k`. */
  lemma ErasedElements<C>(t: Table<C>, k: nat)
    requires Wellformed(t) && k < |t.nodes|
    ensures var r := Erased(t, k);
      Wellformed(r) && Strings(r) == Strings(t)[..k] + Strings(t)[k + 1..] && Pending(r) == Pending(t)
  {
    ErasedWellformed(t, k);
    var r := Erased(t, k);
    var s := Strings(t);
    forall i | 0 <= i < |r.nodes|
      ensures Element(r, i) == (s[..k] + s[k + 1..])[i]
    {
      ErasedElement(t, k, i);
    }
    Within(t.nodes, t.building);
    SliceAfter(t.text, t.nodes[k].index, t.nodes[k].size, [], t.building, |t.text|);
  }

  /** `pop_back()`: the last element's node goes, and the text is cut where it started. */
  function Popped<C>(t: Table<C>): (r: Table<C>)
    requires Wellformed(t) && |t.nodes| > 0
  {
    var last := t.nodes[|t.nodes| - 1];
    Table(t.text[..last.index], t.nodes[..|t.nodes| - 1], last.index)
  }

  /** `pop_back()` drops the last element, and the building substring with it. */
  lemma PoppedElements<C>(t: Table<C>)
    requires Wellformed(t) && |t.nodes| > 0
    ensures var r := Popped(t);
      Wellformed(r) && Strings(r) == Strings(t)[..|t.nodes| - 1] && Pending(r) == []
  {
    Within(t.nodes, t.building);
    var r := Popped(t);
    var n := |t.nodes|;
    assert Adjacent(r.nodes, r.building) by {
      if n > 1 {
        assert Follows(t.nodes, n - 1);
      }
      forall i | 0 < i < |r.nodes|
        ensures Follows(r.nodes, i)
      {
        assert Follows(t.nodes, i);
      }
    }
    forall i | 0 <= i < n - 1
      ensures Element(r, i) == Element(t, i)
    {
      EndsBefore(t.nodes, t.building, i, n - 1);
      assert r.text[t.nodes[i].index..End(t.nodes[i])] == t.text[t.nodes[i].index..End(t.nodes[i])];
    }
  }

  /** Pushing the building substring and popping it again gives back the elements. */
  lemma PopUndoesPushBuilding<C>(t: Table<C>)
    requires Wellformed(t)
    ensures Wellformed(PushedBuilding(t)) &&
      var r := Popped(PushedBuilding(t));
      Wellformed(r) && Strings(r) == Strings(t) && Pending(r) == []
  {
    PushBuildingAppends(t);
    PoppedElements(PushedBuilding(t));
  }

  /**
   * `resize(sz)` with `sz` at most `size()`: the nodes from `sz` on go, and
   * the building substring starts where element `sz` started. The text is
   * kept.
   */
  function Truncated<C>(t: Table<C>, sz: nat): (r: Table<C>)
    requires Wellformed(t) && sz <= |t.nodes|
  {
    if sz == |t.nodes| then t else Table(t.text, t.nodes[..sz], t.nodes[sz].index)
  }

  /** Shrinking keeps the first `sz` elements; the text of the others joins the building substring. */
  lemma TruncatedElements<C>(t: Table<C>, sz: nat)
    requires Wellformed(t) && sz <= |t.nodes|
    ensures var r := Truncated(t, sz);
      Wellformed(r) && Strings(r) == Strings(t)[..sz] &&
      Pending(r) == Concat(Strings(t)[sz..]) + Pending(t)
  {
    Within(t.nodes, t.building);
    SuffixIsConcat(t, sz);
    if sz < |t.nodes| {
      var r := Truncated(t, sz);
      assert Adjacent(r.nodes, r.building) by {
        if sz > 0 {
          assert Follows(t.nodes, sz);
        }
        forall i | 0 < i < sz
          ensures Follows(r.nodes, i)
        {
          assert Follows(t.nodes, i);
        }
      }
      assert Strings(r) == Strings(t)[..sz];
    }
  }

  /** `clear()`: no text, no nodes, and (corrected) no building substring. */
  function Cleared<C>(t: Table<C>): (r: Table<C>)
    ensures Wellformed(r) && Strings(r) == [] && Pending(r) == []
  {
    Table([], [], 0)
  }

  /** `clear()` as written: `buildingIndex` keeps its old value. */
  function ClearedAsWritten<C>(t: Table<C>): (r: Table<C>)
  {
    Table([], [], t.building)
  }

  /**
   * As written, clearing a multi-string that held anything leaves
   * `buildingIndex` past the end of the empty string.
   */
  lemma ClearAsWrittenOverruns<C>(t: Table<C>)
    requires Wellformed(t) && Concat(Strings(t)) != []
    ensures var r := ClearedAsWritten(t);
      r.text == [] && r.nodes == [] && r.building > 0 && !Wellformed(r)
  {
    TextIsConcat(t);
    assert |Pending(t)| == |t.text| - t.building;
  }

  /**
   * A substring edit of element `k` (`substring_insert`, `substring_erase`,
   * `substring_replace`, `substring_clear`): `count` characters at offset
   * `at` in the element become `s`, the node's size and every later node
   * move by the change, and so does the building substring.
   */
  function Spliced<C>(t: Table<C>, k: nat, at: nat, count: nat, s: seq<C>): (r: Table<C>)
    requires Wellformed(t) && k < |t.nodes| && at + count <= t.nodes[k].size
  {
    Within(t.nodes, t.building);
    var n := t.nodes[k];
    Later(t.nodes, t.building, k);
    Table(Splice(t.text, n.index + at, count, s), Shifted(t.nodes, k, |s| - count), t.building - count + |s|)
  }

  /** A substring edit as written: `buildingIndex` stays where it was. */
  function SplicedAsWritten<C>(t: Table<C>, k: nat, at: nat, count: nat, s: seq<C>): (r: Table<C>)
    requires Wellformed(t) && k < |t.nodes| && at + count <= t.nodes[k].size
  {
    Spliced(t, k, at, count, s).(building := t.building)
  }

  /**
   * As written, appending "c" to the only element "ab" leaves
   * `buildingIndex` at 2, so the building substring becomes "c": the
   * element's new last character.
   */
  lemma SpliceAsWrittenLeaksElement()
    ensures var t := Table(['a', 'b'], [Span(0, 2)], 2);
      Wellformed(t) && Pending(t) == [] &&
      var r := SplicedAsWritten(t, 0, 2, 0, ['c']);
      r.nodes == [Span(0, 3)] && Pending(r) == ['c'] && !Wellformed(r)
  {
    var t := Table(['a', 'b'], [Span(0, 2)], 2);
    var r := SplicedAsWritten(t, 0, 2, 0, ['c']);
    assert r.text == ['a', 'b', 'c'];
    assert r.nodes == [Span(0, 3)];
  }

  /** Where a substring edit leaves node `i`. */
  lemma SplicedNode<C>(t: Table<C>, k: nat, at: nat, count: nat, s: seq<C>, i: nat)
    requires Wellformed(t) && k < |t.nodes| && at + count <= t.nodes[k].size && i < |t.nodes|
    ensures var r := Spliced(t, k, at, count, s);
      |r.nodes| == |t.nodes| && (i > k ==> count <= t.nodes[i].index) &&
      r.nodes[i] == if i < k then t.nodes[i]
        else if i == k then Span(t.nodes[k].index, t.nodes[k].size - count + |s|)
        else Span(t.nodes[i].index - count + |s|, t.nodes[i].size)
  {
    if i > k {
      EndsBefore(t.nodes, t.building, k, i);
    }
  }

  /** A substring edit keeps the nodes tiling the text. */
  lemma SplicedWellformed<C>(t: Table<C>, k: nat, at: nat, count: nat, s: seq<C>)
    requires Wellformed(t) && k < |t.nodes| && at + count <= t.nodes[k].size
    ensures Wellformed(Spliced(t, k, at, count, s))
  {
    Within(t.nodes, t.building);
    var r := Spliced(t, k, at, count, s);
    SplicedNode(t, k, at, count, s, 0);
    SplicedNode(t, k, at, count, s, |t.nodes| - 1);
    forall i | 0 < i < |r.nodes|
      ensures Follows(r.nodes, i)
    {
      SplicedNode(t, k, at, count, s, i);
      SplicedNode(t, k, at, count, s, i - 1);
      assert Follows(t.nodes, i);
    }
  }

  /** A substring edit leaves the elements before `k` alone. */
  lemma SplicedBefore<C>(t: Table<C>, k: nat, at: nat, count: nat, s: seq<C>, i: nat)
    requires Wellformed(t) && k < |t.nodes| && at + count <= t.nodes[k].size && i < k
    requires Wellformed(Spliced(t, k, at, count, s))
    ensures Element(Spliced(t, k, at, count, s), i) == Element(t, i)
  {
    SplicedNode(t, k, at, count, s, i);
    Within(t.nodes, t.building);
    EndsBefore(t.nodes, t.building, i, k);
    SliceBefore(t.text, t.nodes[k].index + at, count, s, t.nodes[i].index, End(t.nodes[i]));
  }

  /** A substring edit splices element `k` itself. */
  lemma SplicedAt<C>(t: Table<C>, k: nat, at: nat, count: nat, s: seq<C>)
    requires Wellformed(t) && k < |t.nodes| && at + count <= t.nodes[k].size
    requires Wellformed(Spliced(t, k, at, count, s))
    ensures var e := Element(t, k);
      Element(Spliced(t, k, at, count, s), k) == e[..at] + s + e[at + count..]
  {
    SplicedNode(t, k, at, count, s, k);
    Within(t.nodes, t.building);
    var n := t.nodes[k];
    var p := n.index + at;
    SliceAcross(t.text, p, count, s, n.index, End(n));
    var e := Element(t, k);
    assert e == t.text[n.index..End(n)];
    assert e[..at] == t.text[n.index..p];
    assert e[at + count..] == t.text[p + count..End(n)];
  }

  /** A substring edit moves the elements after `k` without changing them. */
  lemma SplicedAfter<C>(t: Table<C>, k: nat, at: nat, count: nat, s: seq<C>, i: nat)
    requires Wellformed(t) && k < i < |t.nodes| && at + count <= t.nodes[k].size
    requires Wellformed(Spliced(t, k, at, count, s))
    ensures Element(Spliced(t, k, at, count, s), i) == Element(t, i)
  {
    SplicedNode(t, k, at, count, s, i);
    Within(t.nodes, t.building);
    EndsBefore(t.nodes, t.building, k, i);
    SliceAfter(t.text, t.nodes[k].index + at, count, s, t.nodes[i].index, End(t.nodes[i]));
  }

  /** A substring edit changes element `k` alone, by the same splice. */
  lemma SplicedElements<C>(t: Table<C>, k: nat, at: nat, count: nat, s: seq<C>)
    requires Wellformed(t) && k < |t.nodes| && at + count <= t.nodes[k].size
    ensures var r := Spliced(t, k, at, count, s);
      var e := Strings(t)[k];
      Wellformed(r) && Strings(r) == Strings(t)[k := e[..at] + s + e[at + count..]] && Pending(r) == Pending(t)
  {
    SplicedWellformed(t, k, at, count, s);
    var r := Spliced(t, k, at, count, s);
    var e := Strings(t)[k];
    forall i | 0 <= i < |r.nodes|
      ensures Element(r, i) == Strings(t)[k := e[..at] + s + e[at + count..]][i]
    {
      if i < k {
        SplicedBefore(t, k, at, count, s, i);
      } else if i == k {
        SplicedAt(t, k, at, count, s);
      } else {
        SplicedAfter(t, k, at, count, s, i);
      }
    }
    Within(t.nodes, t.building);
    SliceAfter(t.text, t.nodes[k].index + at, count, s, t.building, |t.text|);
  }

  /**
   * `substring_push_back(pos, ch)` as written, over the corrected substring
   * edit: `ch` is pushed onto the end of the cumulative string and then also
   * inserted at the end of element `k`.
   */
  function SubstringPushedBackAsWritten<C>(t: Table<C>, k: nat, ch: C): (r: Table<C>)
    requires Wellformed(t) && k < |t.nodes|
  {
    Spliced(t.(text := t.text + [ch]), k, t.nodes[k].size, 0, [ch])
  }

  /**
   * As written, `substring_push_back` appends `ch` to element `k` and also
   * leaves a stray copy of it at the end of the building substring.
   */
  lemma SubstringPushBackAsWrittenStrays<C>(t: Table<C>, k: nat, ch: C)
    requires Wellformed(t) && k < |t.nodes|
    ensures var r := SubstringPushedBackAsWritten(t, k, ch);
      Wellformed(r) && Strings(r) == Strings(t)[k := Strings(t)[k] + [ch]] && Pending(r) == Pending(t) + [ch]
  {
    var t1 := t.(text := t.text + [ch]);
    Within(t.nodes, t.building);
    assert Strings(t1) == Strings(t) by {
      forall i | 0 <= i < |t.nodes|
        ensures Element(t1, i) == Element(t, i)
      {
      }
    }
    SplicedElements(t1, k, t.nodes[k].size, 0, [ch]);
    var e := Strings(t)[k];
    assert e[..t.nodes[k].size] + [ch] + e[t.nodes[k].size..] == e + [ch];
    assert Pending(t1) == Pending(t) + [ch];
  }

  /**
   * A building edit (`building_insert`, `building_erase`,
   * `building_replace`): `count` characters at offset `at` of the building
   * substring become `s`.
   */
  function PendingSpliced<C>(t: Table<C>, at: nat, count: nat, s: seq<C>): (r: Table<C>)
    requires t.building + at + count <= |t.text|
  {
    t.(text := Splice(t.text, t.building + at, count, s))
  }

  /** Building edits leave every element as it was. */
  lemma PendingSplicedStrings<C>(t: Table<C>, at: nat, count: nat, s: seq<C>)
    requires Wellformed(t) && t.building + at + count <= |t.text|
    ensures Wellformed(PendingSpliced(t, at, count, s)) && Strings(PendingSpliced(t, at, count, s)) == Strings(t)
  {
    Within(t.nodes, t.building);
    var r := PendingSpliced(t, at, count, s);
    assert Adjacent(r.nodes, r.building);
    forall i | 0 <= i < |t.nodes|
      ensures Element(r, i) == Element(t, i)
    {
      SliceBefore(t.text, t.building + at, count, s, t.nodes[i].index, End(t.nodes[i]));
    }
  }

  /** Building edits touch only the building substring, never an element. */
  lemma PendingSplicedElements<C>(t: Table<C>, at: nat, count: nat, s: seq<C>)
    requires Wellformed(t) && t.building + at + count <= |t.text|
    ensures var r := PendingSpliced(t, at, count, s);
      var b := Pending(t);
      Wellformed(r) && Strings(r) == Strings(t) && Pending(r) == b[..at] + s + b[at + count..]
  {
    PendingSplicedStrings(t, at, count, s);
    SliceAcross(t.text, t.building + at, count, s, t.building, |t.text|);
    var b := Pending(t);
    assert b == t.text[t.building..t.building + at] + t.text[t.building + at..t.building + at + count] + t.text[t.building + at + count..];
  }

  /** How many characters `erase(pos, count)` or `replace(pos, count, …)` of `std::basic_string` remove: at most what is left. */
  function Clamp(count: Option<nat>, left: nat): (r: nat)
    ensures r <= left && (count.Some? && count.value <= left ==> r == count.value)
    ensures count.None? ==> r == left
  {
    if count.None? || left < count.value then left else count.value
  }

  /** `building_empty()` as written: true when there IS building text. */
  function BuildingEmptyAsWritten<C>(t: Table<C>): bool
  {
    |t.text| > t.building
  }

  /** `building_empty()` as written answers the opposite of the question it names. */
  lemma BuildingEmptyAsWrittenInverted<C>(t: Table<C>)
    requires Wellformed(t)
    ensures BuildingEmptyAsWritten(t) <==> Pending(t) != []
  {
  }

  /** `building_empty()` as intended: `building_size() == 0`. */
  function BuildingEmpty<C>(t: Table<C>): (r: bool)
    requires Wellformed(t)
    ensures r <==> Pending(t) == []
  {
    |t.text| - t.building == 0
  }

  /**
   * `ktu::basic_multi_string<CharT>` in place: the cumulative string, the
   * nodes and `buildingIndex`, as `priv` holds them.
   */
  class MultiString<C> {
    var text: seq<C>
    var nodes: seq<Span>
    var building: nat

    function State(): Table<C>
      reads this
    {
      Table(text, nodes, building)
    }

    ghost predicate Valid()
      reads this
    {
      Wellformed(State())
    }

    /** The elements, in order. */
    ghost function Elements(): seq<seq<C>>
      requires Valid()
      reads this
    {
      Strings(State())
    }

    /** The building substring. */
    ghost function Building(): seq<C>
      requires Valid()
      reads this
    {
      Pending(State())
    }

    /** `basic_multi_string()`: no elements and no building text. */
    constructor()
      ensures Valid() && Elements() == [] && Building() == []
    {
      text, nodes, building := [], [], 0;
    }

    /** `operator[](pos)`: element `pos`, which must exist. */
    function Get(pos: nat): (r: seq<C>)
      requires Valid() && pos < |nodes|
      reads this
      ensures r == Elements()[pos]
    {
      Within(nodes, building);
      text[nodes[pos].index..nodes[pos].index + nodes[pos].size]
    }

    /** `at(pos)`: element `pos`, or `out_of_range` (`None`) exactly when `pos >= size()`. */
    function At(pos: nat): (r: Option<seq<C>>)
      requires Valid()
      reads this
      ensures r.Some? <==> pos < |Elements()|
      ensures r.Some? ==> r.value == Elements()[pos]
    {
      if pos >= |nodes| then None else Some(Get(pos))
    }

    /** `front()`: the first element. */
    function Front(): (r: seq<C>)
      requires Valid() && |nodes| > 0
      reads this
      ensures r == Elements()[0]
    {
      Get(0)
    }

    /** `back()`: the last element. */
    function Back(): (r: seq<C>)
      requires Valid() && |nodes| > 0
      reads this
      ensures r == Elements()[|Elements()| - 1]
    {
      Get(|nodes| - 1)
    }

    /** `building_size()`: how long the building substring is. */
    function BuildingSize(): (r: nat)
      requires Valid()
      reads this
      ensures r == |Building()|
    {
      |text| - building
    }

    /** `building_at(pos)`: a character of the building substring, or `out_of_range` (`None`). */
    function BuildingAt(pos: nat): (r: Option<C>)
      requires Valid()
      reads this
      ensures r.Some? <==> pos < |Building()|
      ensures r.Some? ==> r.value == Building()[pos]
    {
      if building + pos >= |text| then None else Some(text[building + pos])
    }

    /** `building_string()`: a copy of the building substring. */
    function BuildingString(): (r: seq<C>)
      requires Valid()
      reads this
      ensures Concat(Elements()) + r == text
    {
      TextIsConcat(State());
      text[building..]
    }

    /**
     * `building_substr(pos, count)`: up to `count` characters (all the rest
     * for `npos`, written `None`) of the building substring from `pos`, or
     * `out_of_range` (`None`) when `pos` is past its end.
     */
    function BuildingSubstr(pos: nat, count: Option<nat>): (r: Option<seq<C>>)
      requires Valid()
      reads this
      ensures r.Some? <==> pos <= |Building()|
      ensures r.Some? ==> r.value == Building()[pos..pos + Clamp(count, |Building()| - pos)]
    {
      if building + pos > |text| then None
      else
        var start := building + pos;
        var n := Clamp(count, |text| - start);
        SuffixSlice(text, building, pos, n);
        Some(text[start..start + n])
    }

    /** `substring(pos)`, and `substring_view(pos)` as a value: element `k`. */
    function Substring(k: nat): (r: seq<C>)
      requires Valid() && k < |nodes|
      reads this
      ensures r == Elements()[k]
    {
      Within(nodes, building);
      text[nodes[k].index..nodes[k].index + nodes[k].size]
    }

    /**
     * `substring_substr(pos, s_pos, count)`: `count` characters (all the
     * rest of the element for `npos`, written `None`) of element `k` from
     * offset `at`.
     */
    function SubstringSubstr(k: nat, at: nat, count: Option<nat>): (r: seq<C>)
      requires Valid() && k < |nodes| && at <= nodes[k].size
      reads this
      ensures count.None? ==> r == Elements()[k][at..]
      ensures count.Some? && at + count.value <= nodes[k].size ==> r == Elements()[k][at..at + count.value]
      ensures count.Some? && at + count.value > nodes[k].size ==>
        var after := Concat(Elements()[k + 1..]) + Building();
        r == Elements()[k][at..] + after[..Clamp(Some(at + count.value - nodes[k].size), |after|)]
    {
      Within(nodes, building);
      var start := nodes[k].index + at;
      var n := Clamp(if count.None? then Some(nodes[k].size - at) else count, |text| - start);
      SubstrOfElement(State(), k, at, count, Elements()[k], Concat(Elements()[k + 1..]) + Building(), start, n);
      text[start..start + n]
    }

    /**
     * The loop of `insert`, `erase` and `priv::nodes_shift_*`: every node
     * from `from` to the end moves `d` characters along the text.
     */
    method MoveFrom(from: nat, d: int)
      requires forall j :: from <= j < |nodes| ==> nodes[j].index + d >= 0
      modifies this
      ensures nodes == Moved(old(nodes), from, d) && text == old(text) && building == old(building)
    {
      var i := from;
      while i < |nodes|
        invariant |nodes| == |old(nodes)| && text == old(text) && building == old(building)
        invariant forall j :: 0 <= j < |nodes| ==>
          nodes[j].size == old(nodes)[j].size &&
          nodes[j].index == if from <= j < i then old(nodes)[j].index + d else old(nodes)[j].index
      {
        nodes := nodes[i := Span(nodes[i].index + d, nodes[i].size)];
        i := i + 1;
      }
      assert forall j :: 0 <= j < |nodes| ==> nodes[j] == Moved(old(nodes), from, d)[j];
    }

    /** `priv::nodes_shift_change(pos, d)`: element `k` grows by `d`, and every later node moves by `d`. */
    method ShiftChange(k: nat, d: int)
      requires k < |nodes| && nodes[k].size + d >= 0
      requires forall j :: k < j < |nodes| ==> nodes[j].index + d >= 0
      modifies this
      ensures nodes == Shifted(old(nodes), k, d) && text == old(text) && building == old(building)
    {
      nodes := nodes[k := Span(nodes[k].index, nodes[k].size + d)];
      MoveFrom(k + 1, d);
    }

    /** `priv::nodes_shift_add(pos, n)`: `nodes_shift_change` by `+n`. */
    method ShiftAdd(k: nat, n: nat)
      requires k < |nodes|
      modifies this
      ensures nodes == Shifted(old(nodes), k, n) && text == old(text) && building == old(building)
    {
      ShiftChange(k, n);
    }

    /** `priv::nodes_shift_subtract(pos, n)`: `nodes_shift_change` by `-n`. */
    method ShiftSubtract(k: nat, n: nat)
      requires k < |nodes| && n <= nodes[k].size
      requires forall j :: k < j < |nodes| ==> n <= nodes[j].index
      modifies this
      ensures nodes == Shifted(old(nodes), k, -(n as int)) && text == old(text) && building == old(building)
    {
      ShiftChange(k, -(n as int));
    }

    /** `push_building()`: the building substring becomes a new last element. */
    method PushBuilding()
      requires Valid()
      modifies this
      ensures State() == PushedBuilding(old(State()))
      ensures Valid() && Elements() == old(Elements()) + [old(Building())] && Building() == []
    {
      PushBuildingAppends(State());
      nodes := nodes + [Span(building, |text| - building)];
      building := |text|;
    }

    /** `push_back(str)`: a new last element, the building substring followed by `str`. */
    method PushBack(s: seq<C>)
      requires Valid()
      modifies this
      ensures Valid() && Elements() == old(Elements()) + [old(Building()) + s] && Building() == []
    {
      ghost var t := State();
      ghost var b := Building();
      PendingSplicedElements(t, |b|, 0, s);
      assert b[..|b|] + s + b[|b|..] == b + s;
      text := text + s;
      assert text == Splice(t.text, |t.text|, 0, s);
      assert State() == PendingSpliced(t, |b|, 0, s);
      PushBuilding();
    }

    /** `insert(pos, value)`: `value` becomes element `k`; the element that was there and those after it follow. */
    method Insert(k: nat, v: seq<C>) returns (it: nat)
      requires Valid() && k < |nodes|
      modifies this
      ensures State() == Inserted(old(State()), k, v) && it == k
      ensures Valid() && Elements() == old(Elements())[..k] + [v] + old(Elements())[k..] && Building() == old(Building())
    {
      ghost var t := State();
      InsertedElements(t, k, v);
      Within(nodes, building);
      var p := nodes[k].index;
      text := text[..p] + v + text[p..];
      MoveFrom(k, |v|);
      nodes := nodes[..k] + [Span(p, |v|)] + nodes[k..];
      building := building + |v|;
      it := k;
    }

    /**
     * `erase(pos)`: element `k` and its characters go. The source also
     * lowers the erased node's own index before removing it; that node is
     * gone right after, so the loop here starts past it.
     */
    method Erase(k: nat) returns (it: nat)
      requires Valid() && k < |nodes|
      modifies this
      ensures State() == Erased(old(State()), k) && it == k
      ensures Valid() && Elements() == old(Elements())[..k] + old(Elements())[k + 1..] && Building() == old(Building())
    {
      ghost var t := State();
      ErasedElements(t, k);
      Within(nodes, building);
      var n := nodes[k];
      text := text[..n.index] + text[n.index + n.size..];
      Later(nodes, building, k);
      MoveFrom(k + 1, -(n.size as int));
      nodes := nodes[..k] + nodes[k + 1..];
      building := building - n.size;
      it := k;
    }

    /** `pop_back()`: the last element goes, and so does any building text. */
    method PopBack()
      requires Valid() && |nodes| > 0
      modifies this
      ensures State() == Popped(old(State()))
      ensures Valid() && Elements() == old(Elements())[..|old(Elements())| - 1] && Building() == []
    {
      PoppedElements(State());
      Within(nodes, building);
      building := nodes[|nodes| - 1].index;
      text := text[..building];
      nodes := nodes[..|nodes| - 1];
    }

    /**
     * `resize(sz)` for `sz` at most `size()`: the first `sz` elements stay,
     * and the text of the rest joins the front of the building substring.
     */
    method Resize(sz: nat)
      requires Valid() && sz <= |nodes|
      modifies this
      ensures State() == Truncated(old(State()), sz)
      ensures Valid() && Elements() == old(Elements())[..sz]
      ensures Building() == Concat(old(Elements())[sz..]) + old(Building())
    {
      TruncatedElements(State(), sz);
      if sz == |nodes| {
        return;
      }
      building := nodes[sz].index;
      nodes := nodes[..sz];
    }

    /** `clear()`: everything goes; the building substring starts again at 0. */
    method Clear()
      requires Valid()
      modifies this
      ensures State() == Cleared(old(State()))
      ensures Valid() && Elements() == [] && Building() == []
    {
      text, nodes := [], [];
      building := 0;
    }

    /**
     * `substring_replace(pos, s_pos, count, str)`: `count` characters at
     * offset `at` of element `k` become `s`; the node and those after it
     * follow through `nodes_shift_change`.
     */
    method SubstringReplace(k: nat, at: nat, count: nat, s: seq<C>)
      requires Valid() && k < |nodes| && at + count <= nodes[k].size
      modifies this
      ensures State() == Spliced(old(State()), k, at, count, s)
      ensures var e := old(Elements())[k];
        Valid() && Elements() == old(Elements())[k := e[..at] + s + e[at + count..]] && Building() == old(Building())
    {
      ghost var t := State();
      SplicedElements(t, k, at, count, s);
      Within(nodes, building);
      Later(nodes, building, k);
      var p := nodes[k].index + at;
      assert Spliced(t, k, at, count, s) == Table(Splice(text, p, count, s), Shifted(nodes, k, |s| - count), building - count + |s|);
      text := Splice(text, p, count, s);
      ShiftChange(k, |s| - count);
      building := building - count + |s|;
    }

    /** `substring_insert(pos, index, str)`: `s` goes into element `k` at offset `at`. */
    method SubstringInsert(k: nat, at: nat, s: seq<C>)
      requires Valid() && k < |nodes| && at <= nodes[k].size
      modifies this
      ensures State() == Spliced(old(State()), k, at, 0, s)
      ensures var e := old(Elements())[k];
        Valid() && Elements() == old(Elements())[k := e[..at] + s + e[at..]] && Building() == old(Building())
    {
      ghost var t := State();
      SplicedElements(t, k, at, 0, s);
      Within(nodes, building);
      var p := nodes[k].index + at;
      text := text[..p] + s + text[p..];
      ShiftAdd(k, |s|);
      building := building + |s|;
    }

    /**
     * The step `substring_erase` and `substring_clear` share: `size`
     * characters of element `k` from offset `at` leave the text, and
     * `nodes_shift_subtract` shrinks the node and moves those after it.
     */
    method EraseChars(k: nat, at: nat, size: nat)
      requires Valid() && k < |nodes| && at + size <= nodes[k].size
      modifies this
      ensures State() == Spliced(old(State()), k, at, size, [])
      ensures var e := old(Elements())[k];
        Valid() && Elements() == old(Elements())[k := e[..at] + e[at + size..]] && Building() == old(Building())
    {
      ghost var t := State();
      ghost var e := Elements()[k];
      SplicedElements(t, k, at, size, []);
      assert e[..at] + [] + e[at + size..] == e[..at] + e[at + size..];
      RemoveChars(k, at, size);
    }

    /** The text and node edits of `EraseChars`. */
    method RemoveChars(k: nat, at: nat, size: nat)
      requires Valid() && k < |nodes| && at + size <= nodes[k].size
      modifies this
      ensures State() == Spliced(old(State()), k, at, size, [])
    {
      Within(nodes, building);
      Later(nodes, building, k);
      ghost var want := Spliced(State(), k, at, size, []);
      assert want == Table(Splice(text, nodes[k].index + at, size, []), Shifted(nodes, k, -(size as int)), building - size);
      text := Splice(text, nodes[k].index + at, size, []);
      ShiftSubtract(k, size);
      building := building - size;
    }

    /**
     * `substring_erase(pos, index, count)`: `count` characters (all the
     * rest of the element for `npos`, written `None`) of element `k` from
     * offset `at` go.
     */
    method SubstringErase(k: nat, at: nat, count: Option<nat>)
      requires Valid() && k < |nodes| && at <= nodes[k].size
      requires count.Some? ==> at + count.value <= nodes[k].size
      modifies this
      ensures var e := old(Elements())[k];
        var size := if count.None? then |e| - at else count.value;
        Valid() && Elements() == old(Elements())[k := e[..at] + e[at + size..]] && Building() == old(Building())
    {
      var size := if count.None? then nodes[k].size - at else count.value;
      EraseChars(k, at, size);
    }

    /** `substring_clear(pos)`: element `k` becomes empty. */
    method SubstringClear(k: nat)
      requires Valid() && k < |nodes|
      modifies this
      ensures Valid() && Elements() == old(Elements())[k := []] && Building() == old(Building())
    {
      EraseChars(k, 0, nodes[k].size);
    }

    /** `substring_append(pos, str)`: `s` goes onto the end of element `k`. */
    method SubstringAppend(k: nat, s: seq<C>)
      requires Valid() && k < |nodes|
      modifies this
      ensures Valid() && Elements() == old(Elements())[k := old(Elements())[k] + s] && Building() == old(Building())
    {
      ghost var e := Elements()[k];
      assert |e| == nodes[k].size;
      SubstringInsert(k, nodes[k].size, s);
      assert e[..|e|] + s + e[|e|..] == e + s;
    }

    /** `substring_push_back(pos, ch)` as intended: `ch` goes onto the end of element `k` only. */
    method SubstringPushBack(k: nat, ch: C)
      requires Valid() && k < |nodes|
      modifies this
      ensures Valid() && Elements() == old(Elements())[k := old(Elements())[k] + [ch]] && Building() == old(Building())
    {
      SubstringAppend(k, [ch]);
    }

    /** `building_clear()`: the building substring is dropped. */
    method BuildingClear()
      requires Valid()
      modifies this
      ensures Valid() && Elements() == old(Elements()) && Building() == []
    {
      ghost var t := State();
      PendingSplicedElements(t, 0, |text| - building, []);
      text := text[..building];
      assert State() == PendingSpliced(t, 0, |t.text| - t.building, []);
    }

    /**
     * `building_replace(pos, count, str)`: up to `count` characters of the
     * building substring from `at` become `s`, or `out_of_range` (`ok` is
     * false, nothing changes) when `at` is past its end.
     */
    method BuildingReplace(at: nat, count: Option<nat>, s: seq<C>) returns (ok: bool)
      requires Valid()
      modifies this
      ensures ok <==> at <= old(|Building()|)
      ensures Valid() && Elements() == old(Elements())
      ensures var b := old(Building());
        ok ==> Building() == b[..at] + s + b[at + Clamp(count, |b| - at)..]
      ensures !ok ==> unchanged(this)
    {
      if building + at > |text| {
        return false;
      }
      ghost var t := State();
      var cut := Clamp(count, |text| - (building + at));
      PendingSplicedElements(t, at, cut, s);
      text := text[..building + at] + s + text[building + at + cut..];
      assert State() == PendingSpliced(t, at, cut, s);
      ok := true;
    }

    /** `building_insert(index, str)`: `s` goes into the building substring at `at`, or `out_of_range`. */
    method BuildingInsert(at: nat, s: seq<C>) returns (ok: bool)
      requires Valid()
      modifies this
      ensures ok <==> at <= old(|Building()|)
      ensures Valid() && Elements() == old(Elements())
      ensures ok ==> Building() == old(Building())[..at] + s + old(Building())[at..]
      ensures !ok ==> unchanged(this)
    {
      ok := BuildingReplace(at, Some(0), s);
    }

    /**
     * `building_erase(index, count)`: up to `count` characters (all the
     * rest for `npos`, written `None`) of the building substring from `at`
     * go, or `out_of_range`.
     */
    method BuildingErase(at: nat, count: Option<nat>) returns (ok: bool)
      requires Valid()
      modifies this
      ensures ok <==> at <= old(|Building()|)
      ensures Valid() && Elements() == old(Elements())
      ensures var b := old(Building());
        ok ==> Building() == b[..at] + b[at + Clamp(count, |b| - at)..]
      ensures !ok ==> unchanged(this)
    {
      ok := BuildingReplace(at, count, []);
    }

    /** `building_append(str)`: `s` goes onto the end of the building substring. */
    method BuildingAppend(s: seq<C>)
      requires Valid()
      modifies this
      ensures Valid() && Elements() == old(Elements()) && Building() == old(Building()) + s
    {
      ghost var t := State();
      PendingSplicedElements(t, |text| - building, 0, s);
      text := text + s;
      assert State() == PendingSpliced(t, |t.text| - t.building, 0, s);
    }

    /** `building_push_back(ch)`: `ch` goes onto the end of the building substring. */
    method BuildingPushBack(ch: C)
      requires Valid()
      modifies this
      ensures Valid() && Elements() == old(Elements()) && Building() == old(Building()) + [ch]
    {
      BuildingAppend([ch]);
    }

    /**
     * `building_resize(n, ch)`: the building substring is cut to `n`
     * characters or padded to `n` with `ch`.
     */
    method BuildingResize(n: nat, ch: C)
      requires Valid()
      modifies this
      ensures Valid() && Elements() == old(Elements())
      ensures var b := old(Building());
        Building() == if n <= |b| then b[..n] else b + seq(n - |b|, _ => ch)
    {
      var size := |text| - building;
      if n <= size {
        ghost var t := State();
        PendingSplicedElements(t, n, size - n, []);
        text := text[..building + n];
        assert State() == PendingSpliced(t, n, size - n, []);
      } else {
        BuildingAppend(seq(n - size, _ => ch));
      }
    }
  }
}
