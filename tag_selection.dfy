/**
 * The tag selection of the guidelines editor (GuildelinesGenerator.tsx, handleToggleTag):
 * clicking a tag removes every occurrence of it when it is already selected and appends it
 * at the end otherwise.
 */
module TagSelection {

  /** No tag occurs twice. Every selection reachable from the empty one by toggling is distinct. */
  predicate Distinct(s: seq<string>) {
    forall i, j :: 0 <= i < j < |s| ==> s[i] != s[j]
  }

  /** `s.filter(t => t !== tag)`: drops every occurrence of `tag`, keeps the rest. */
  function RemoveAll(s: seq<string>, tag: string): (r: seq<string>)
    ensures forall x :: x in r <==> x in s && x != tag
    ensures multiset(r) == multiset(s)[tag := 0]
    ensures |r| + multiset(s)[tag] == |s|
  {
    if s == [] then []
    else
      assert s == [s[0]] + s[1..];
      (if s[0] == tag then [] else [s[0]]) + RemoveAll(s[1..], tag)
  }

  /** The selection after a click on `tag`. */
  function Toggle(s: seq<string>, tag: string): (r: seq<string>)
    ensures tag in r <==> tag !in s
    ensures forall x :: x != tag ==> (x in r <==> x in s)
    ensures tag !in s ==> |r| == |s| + 1 && r[..|s|] == s && r[|s|] == tag
    ensures tag in s ==> multiset(r) == multiset(s)[tag := 0]
  {
    if tag in s then RemoveAll(s, tag) else s + [tag]
  }

  /** Filtering distributes over concatenation: the kept tags stay in their relative order. */
  lemma {:induction false} RemoveAllConcat(a: seq<string>, b: seq<string>, tag: string)
    ensures RemoveAll(a + b, tag) == RemoveAll(a, tag) + RemoveAll(b, tag)
  {
    if a == [] {
      assert a + b == b;
    } else {
      assert (a + b)[0] == a[0];
      assert (a + b)[1..] == a[1..] + b;
      RemoveAllConcat(a[1..], b, tag);
    }
  }

  /** Filtering out a tag that is not there returns the selection unchanged. */
  lemma {:induction false} RemoveAllAbsent(s: seq<string>, tag: string)
    requires tag !in s
    ensures RemoveAll(s, tag) == s
  {
    if s != [] {
      assert s[1..] + [] == s[1..];
      assert tag !in s[1..];
      RemoveAllAbsent(s[1..], tag);
      assert [s[0]] + s[1..] == s;
    }
  }

  /** Filtering keeps exactly the entries that differ from the removed tag, in order. */
  lemma RemoveAllSingleton(x: string, tag: string)
    ensures RemoveAll([x], tag) == if x == tag then [] else [x]
  {
  }

  /** A click never introduces a duplicate. */
  lemma {:induction false} ToggleKeepsDistinct(s: seq<string>, tag: string)
    requires Distinct(s)
    ensures Distinct(Toggle(s, tag))
  {
    if tag in s {
      RemoveAllKeepsDistinct(s, tag);
    }
  }

  lemma {:induction false} RemoveAllKeepsDistinct(s: seq<string>, tag: string)
    requires Distinct(s)
    ensures Distinct(RemoveAll(s, tag))
  {
    if s != [] {
      var rest := RemoveAll(s[1..], tag);
      assert Distinct(s[1..]) by {
        forall i, j | 0 <= i < j < |s[1..]| ensures s[1..][i] != s[1..][j] {
          assert s[1..][i] == s[i + 1] && s[1..][j] == s[j + 1];
        }
      }
      RemoveAllKeepsDistinct(s[1..], tag);
      assert s[0] !in s[1..];
    }
  }

  /** Two clicks on a tag that was not selected restore the selection exactly. */
  lemma {:induction false} ToggleTwiceAbsent(s: seq<string>, tag: string)
    requires tag !in s
    ensures Toggle(Toggle(s, tag), tag) == s
  {
    RemoveAllConcat(s, [tag], tag);
    RemoveAllAbsent(s, tag);
    RemoveAllSingleton(tag, tag);
    assert s + [] == s;
  }

  /** Two clicks on a selected tag drop every copy of it and re-append one copy at the end. */
  lemma ToggleTwicePresent(s: seq<string>, tag: string)
    requires tag in s
    ensures Toggle(Toggle(s, tag), tag) == RemoveAll(s, tag) + [tag]
  {
  }

  /** Two clicks on the same tag restore the selection as a set. */
  lemma ToggleTwiceSameSet(s: seq<string>, tag: string)
    ensures forall x :: x in Toggle(Toggle(s, tag), tag) <==> x in s
  {
  }

  /** On a distinct selection, two clicks restore the selection as a multiset too. */
  lemma {:induction false} ToggleTwiceSameMultiset(s: seq<string>, tag: string)
    requires Distinct(s)
    ensures multiset(Toggle(Toggle(s, tag), tag)) == multiset(s)
  {
    if tag !in s {
      ToggleTwiceAbsent(s, tag);
    } else {
      var i :| 0 <= i < |s| && s[i] == tag;
      assert s == s[..i] + [tag] + s[i + 1..];
      assert tag !in s[..i] && tag !in s[i + 1..] by {
        forall j | 0 <= j < |s| && j != i ensures s[j] != tag {
          if j < i { assert s[j] != s[i]; } else { assert s[i] != s[j]; }
        }
      }
      assert multiset(s)[tag] == 1 by {
        calc {
          multiset(s)[tag];
          multiset(s[..i])[tag] + multiset([tag])[tag] + multiset(s[i + 1..])[tag];
          0 + 1 + 0;
        }
      }
    }
  }

  /** The order of a sequence matters: re-selecting "a" in ["a", "b"] yields ["b", "a"]. */
  lemma ToggleTwiceReorders()
    ensures Toggle(Toggle(["a", "b"], "a"), "a") == ["b", "a"]
  {
  }
}
