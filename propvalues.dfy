/**
 * IterateSortPVs (util/util.go): collect the property values into a map
 * (a later value for the same property replaces an earlier one), sort the
 * property names, and call the action once per name in sorted order.
 *
 * The action is modelled by the sequence of calls it receives.
 */
module PropertyValues {

  /** pb.PropertyValue. */
  datatype PropertyValue = PropertyValue(property: string, value: string)

  /** One call action(index, property, value). */
  datatype Call = Call(index: nat, property: string, value: string)

  // ---------------------------------------------------------------------
  // The order of sort.Strings
  // ---------------------------------------------------------------------

  /**
   * Go's `<=` on strings: lexicographic on the UTF-8 bytes, which orders
   * code points the same way, so the model compares characters.
   */
  predicate StrLe(a: string, b: string)
    decreases |a|
  {
    a == [] || (b != [] && (a[0] < b[0] || (a[0] == b[0] && StrLe(a[1..], b[1..]))))
  }

  lemma {:induction false} StrLeTotal(a: string, b: string)
    ensures StrLe(a, b) || StrLe(b, a)
    decreases |a|
  {
    if a != [] && b != [] && a[0] == b[0] {
      StrLeTotal(a[1..], b[1..]);
    }
  }

  lemma {:induction false} StrLeAntisymmetric(a: string, b: string)
    requires StrLe(a, b) && StrLe(b, a)
    ensures a == b
    decreases |a|
  {
    if a != [] {
      StrLeAntisymmetric(a[1..], b[1..]);
      assert a == [a[0]] + a[1..];
      assert b == [b[0]] + b[1..];
    }
  }

  lemma {:induction false} StrLeTransitive(a: string, b: string, c: string)
    requires StrLe(a, b) && StrLe(b, c)
    ensures StrLe(a, c)
    decreases |a|
  {
    if a != [] && a[0] == b[0] && b[0] == c[0] {
      StrLeTransitive(a[1..], b[1..], c[1..]);
    }
  }

  lemma {:induction false} StrLeReflexive(a: string)
    ensures StrLe(a, a)
    decreases |a|
  {
    if a != [] {
      StrLeReflexive(a[1..]);
    }
  }

  ghost predicate Sorted(s: seq<string>) {
    forall i, j :: 0 <= i < j < |s| ==> StrLe(s[i], s[j])
  }

  // ---------------------------------------------------------------------
  // sort.Strings
  // ---------------------------------------------------------------------

  function Insert(x: string, s: seq<string>): (r: seq<string>)
    ensures |r| == |s| + 1
  {
    if s == [] then [x]
    else if StrLe(x, s[0]) then [x] + s
    else [s[0]] + Insert(x, s[1..])
  }

  /** The sorted order of a list of strings; any correct sort returns it (SortedUnique). */
  function SortStrings(s: seq<string>): (r: seq<string>)
    ensures |r| == |s|
  {
    if s == [] then [] else Insert(s[0], SortStrings(s[1..]))
  }

  lemma {:induction false} InsertPermutes(x: string, s: seq<string>)
    ensures multiset(Insert(x, s)) == multiset(s) + multiset{x}
    decreases |s|
  {
    if s != [] {
      assert s == [s[0]] + s[1..];
      if !StrLe(x, s[0]) {
        InsertPermutes(x, s[1..]);
      }
    }
  }

  lemma {:induction false} InsertSorted(x: string, s: seq<string>)
    requires Sorted(s)
    ensures Sorted(Insert(x, s))
    ensures multiset(Insert(x, s)) == multiset(s) + multiset{x}
    decreases |s|
  {
    InsertPermutes(x, s);
    if s != [] {
      if StrLe(x, s[0]) {
        forall j | 0 < j < |s| ensures StrLe(x, s[j]) {
          StrLeTransitive(x, s[0], s[j]);
        }
      } else {
        StrLeTotal(x, s[0]);
        InsertSorted(x, s[1..]);
        InsertAbove(s[0], x, s[1..]);
      }
    }
  }

  /** A lower bound of x and of every element of s bounds Insert(x, s). */
  lemma InsertAbove(y: string, x: string, s: seq<string>)
    requires StrLe(y, x) && forall e :: e in s ==> StrLe(y, e)
    ensures forall e :: e in Insert(x, s) ==> StrLe(y, e)
  {
    InsertPermutes(x, s);
    forall e | e in Insert(x, s) ensures StrLe(y, e) {
      assert e in multiset(Insert(x, s));
    }
  }

  /** SortStrings returns its input sorted. */
  lemma {:induction false} SortStringsSorts(s: seq<string>)
    ensures Sorted(SortStrings(s))
    ensures multiset(SortStrings(s)) == multiset(s)
    decreases |s|
  {
    if s != [] {
      SortStringsSorts(s[1..]);
      InsertSorted(s[0], SortStrings(s[1..]));
      assert s == [s[0]] + s[1..];
    }
  }

  /** Two sorted lists with the same elements are equal: the sort's output does not depend on its algorithm. */
  lemma {:induction false} SortedUnique(a: seq<string>, b: seq<string>)
    requires Sorted(a) && Sorted(b)
    requires multiset(a) == multiset(b)
    ensures a == b
    decreases |a|
  {
    if a == [] {
      assert |multiset(b)| == 0;
    } else {
      assert |multiset(b)| == |a|;
      assert b != [];
      assert a[0] in multiset(b) && b[0] in multiset(a);
      var i :| 0 <= i < |b| && b[i] == a[0];
      var j :| 0 <= j < |a| && a[j] == b[0];
      StrLeReflexive(a[0]);
      assert StrLe(a[0], b[0]) by {
        if j > 0 {
          assert StrLe(a[0], a[j]);
        }
      }
      assert StrLe(b[0], a[0]) by {
        if i > 0 {
          assert StrLe(b[0], b[i]);
        }
      }
      StrLeAntisymmetric(a[0], b[0]);
      assert a == [a[0]] + a[1..];
      assert b == [b[0]] + b[1..];
      assert multiset(a[1..]) == multiset(b[1..]) by {
        assert multiset(a) == multiset{a[0]} + multiset(a[1..]);
        assert multiset(b) == multiset{b[0]} + multiset(b[1..]);
        forall y ensures multiset(a[1..])[y] == multiset(b[1..])[y] {
          assert multiset(a)[y] == multiset{a[0]}[y] + multiset(a[1..])[y];
          assert multiset(b)[y] == multiset{b[0]}[y] + multiset(b[1..])[y];
        }
      }
      SortedUnique(a[1..], b[1..]);
    }
  }

  // ---------------------------------------------------------------------
  // IterateSortPVs
  // ---------------------------------------------------------------------

  function Properties(pvs: seq<PropertyValue>): (r: seq<string>)
    ensures |r| == |pvs|
  {
    seq(|pvs|, i requires 0 <= i < |pvs| => pvs[i].property)
  }

  /** The value given last for p, or "" when p never occurs. */
  function LastValue(pvs: seq<PropertyValue>, p: string): string {
    if pvs == [] then ""
    else if pvs[|pvs| - 1].property == p then pvs[|pvs| - 1].value
    else LastValue(pvs[..|pvs| - 1], p)
  }

  /** A Go map read: the zero value for a missing key. */
  function Get(m: map<string, string>, p: string): string {
    if p in m then m[p] else ""
  }

  method IterateSortPVs(pvs: seq<PropertyValue>) returns (calls: seq<Call>)
    ensures |calls| == |pvs|
    ensures forall i :: 0 <= i < |calls| ==> calls[i].index == i
    ensures forall i, j :: 0 <= i < j < |calls| ==> StrLe(calls[i].property, calls[j].property)
    ensures forall i :: 0 <= i < |calls| ==> calls[i].property == SortStrings(Properties(pvs))[i]
    ensures forall i :: 0 <= i < |calls| ==> calls[i].value == LastValue(pvs, calls[i].property)
  {
    var pvMap: map<string, string> := map[];
    var pList: seq<string> := [];
    for i := 0 to |pvs|
      invariant pList == Properties(pvs[..i])
      invariant forall p :: p in pvMap <==> p in pList
      invariant forall p :: p in pvMap ==> pvMap[p] == LastValue(pvs[..i], p)
    {
      assert pvs[..i + 1][..i] == pvs[..i];
      pvMap := pvMap[pvs[i].property := pvs[i].value];
      pList := pList + [pvs[i].property];
    }
    assert pvs[..|pvs|] == pvs;
    var unsorted := pList;
    pList := SortStrings(pList);
    SortStringsSorts(unsorted);
    calls := [];
    for i := 0 to |pList|
      invariant |calls| == i
      invariant forall j :: 0 <= j < i ==> calls[j] == Call(j, pList[j], Get(pvMap, pList[j]))
    {
      calls := calls + [Call(i, pList[i], Get(pvMap, pList[i]))];
    }
    forall i | 0 <= i < |calls| ensures calls[i].value == LastValue(pvs, calls[i].property) {
      assert pList[i] in multiset(unsorted);
    }
  }

  /** A property that never occurs reads as "". */
  lemma {:induction false} LastValueAbsent(pvs: seq<PropertyValue>, p: string)
    requires forall k :: 0 <= k < |pvs| ==> pvs[k].property != p
    ensures LastValue(pvs, p) == ""
    decreases |pvs|
  {
    if pvs != [] {
      LastValueAbsent(pvs[..|pvs| - 1], p);
    }
  }

  /** LastValue is the value of the last entry for p. */
  lemma {:induction false} LastValueIsLast(pvs: seq<PropertyValue>, p: string, k: nat)
    requires k < |pvs| && pvs[k].property == p
    requires forall j :: k < j < |pvs| ==> pvs[j].property != p
    ensures LastValue(pvs, p) == pvs[k].value
    decreases |pvs|
  {
    if k < |pvs| - 1 {
      var init := pvs[..|pvs| - 1];
      assert init[k] == pvs[k];
      LastValueIsLast(init, p, k);
    }
  }

  /** Repeated properties: both calls for "a" carry its last value. */
  lemma IterateExample()
    ensures var pvs := [PropertyValue("b", "1"), PropertyValue("a", "2"), PropertyValue("a", "3")];
            SortStrings(Properties(pvs)) == ["a", "a", "b"] &&
            LastValue(pvs, "a") == "3" && LastValue(pvs, "b") == "1"
  {
    var pvs := [PropertyValue("b", "1"), PropertyValue("a", "2"), PropertyValue("a", "3")];
    assert Properties(pvs) == ["b", "a", "a"];
    assert StrLe("a", "a") && StrLe("a", "b") && !StrLe("b", "a");
    assert Insert("a", []) == ["a"];
    assert Insert("a", ["a"]) == ["a", "a"];
    assert Insert("b", ["a", "a"]) == ["a"] + Insert("b", ["a"]);
    assert Insert("b", ["a"]) == ["a"] + Insert("b", []);
    assert ["b", "a", "a"][1..] == ["a", "a"] && ["a", "a"][1..] == ["a"];
    assert pvs[..2] == [PropertyValue("b", "1"), PropertyValue("a", "2")];
    assert pvs[..2][..1] == [PropertyValue("b", "1")];
  }
}
