/**
 * The option-list helpers. LootLib.cs repeats AddOption, RemoveOption,
 * RemoveMultipleOptions, FilterOptions and ContainsOption once per rule class
 * that owns an option array; each copy rebuilds the array as a new list and
 * assigns it back. This module is the single generic version, over the
 * array's contents as a sequence; the caller stores the returned sequence.
 */
module Options {

  /** The elements of `options` that `keep` accepts, in their original order. */
  function Filter<T(==)>(options: seq<T>, keep: T -> bool): (kept: seq<T>)
    ensures |kept| <= |options|
    ensures forall i :: 0 <= i < |kept| ==> kept[i] in options && keep(kept[i])
    ensures forall i :: 0 <= i < |options| && keep(options[i]) ==> options[i] in kept
  {
    if options == [] then []
    else (if keep(options[0]) then [options[0]] else []) + Filter(options[1..], keep)
  }

  /** Filtering keeps every copy of an accepted option and no copy of a rejected one. */
  lemma {:induction false} FilterCounts<T>(s: seq<T>, keep: T -> bool)
    ensures forall x :: multiset(Filter(s, keep))[x] == if keep(x) then multiset(s)[x] else 0
  {
    if s != [] {
      FilterCounts(s[1..], keep);
      assert s == [s[0]] + s[1..];
    }
  }

  /** `a` is `b` with some elements left out and the rest in the same order. */
  predicate IsSubsequence<T(==)>(a: seq<T>, b: seq<T>)
  {
    if a == [] then true
    else if b == [] then false
    else if a[0] == b[0] then IsSubsequence(a[1..], b[1..])
    else IsSubsequence(a, b[1..])
  }

  /** The predicate "is not in `xs`", used by RemoveMultipleOptions. */
  function NotAmong<T(==)>(xs: seq<T>): T -> bool
  {
    y => y !in xs
  }

  /** The predicate "is rejected by `p`", used by the predicate form of RemoveOption. */
  function Rejected<T>(p: T -> bool): T -> bool
  {
    y => !p(y)
  }

  lemma {:induction false} FilterAppend<T>(s: seq<T>, t: seq<T>, keep: T -> bool)
    ensures Filter(s + t, keep) == Filter(s, keep) + Filter(t, keep)
  {
    if s == [] {
      assert s + t == t;
    } else {
      assert (s + t)[1..] == s[1..] + t;
      FilterAppend(s[1..], t, keep);
    }
  }

  /** Filtering keeps the order of what it keeps. */
  lemma {:induction false} FilterIsSubsequence<T>(s: seq<T>, keep: T -> bool)
    ensures IsSubsequence(Filter(s, keep), s)
  {
    if s != [] {
      FilterIsSubsequence(s[1..], keep);
      if keep(s[0]) {
        assert Filter(s, keep) == [s[0]] + Filter(s[1..], keep);
        assert (Filter(s, keep))[1..] == Filter(s[1..], keep);
      } else {
        assert Filter(s, keep) == Filter(s[1..], keep);
        SubsequenceDropHead(Filter(s, keep), s);
      }
    }
  }

  lemma {:induction false} SubsequenceDropHead<T>(a: seq<T>, b: seq<T>)
    requires b != [] && IsSubsequence(a, b[1..])
    ensures IsSubsequence(a, b)
    decreases |a| + |b|
  {
    if a != [] && a[0] == b[0] {
      SubsequenceOfTail(a, b[1..]);
    }
  }

  lemma {:induction false} SubsequenceOfTail<T>(a: seq<T>, b: seq<T>)
    requires a != [] && IsSubsequence(a, b)
    ensures IsSubsequence(a[1..], b)
    decreases |a| + |b|
  {
    if b != [] {
      if a[0] == b[0] {
        SubsequenceDropHead(a[1..], b);
      } else {
        SubsequenceOfTail(a, b[1..]);
        SubsequenceDropHead(a[1..], b);
      }
    }
  }

  /** Nothing is dropped exactly when `keep` accepts every element. */
  lemma {:induction false} FilterKeepsAllIff<T>(s: seq<T>, keep: T -> bool)
    ensures Filter(s, keep) == s <==> forall i :: 0 <= i < |s| ==> keep(s[i])
    ensures |Filter(s, keep)| == |s| <==> Filter(s, keep) == s
  {
    if s != [] {
      var t := s[1..];
      FilterKeepsAllIff(t, keep);
      if !keep(s[0]) {
        assert Filter(s, keep) == Filter(t, keep);
        assert |Filter(s, keep)| < |s|;
      } else {
        assert Filter(s, keep) == [s[0]] + Filter(t, keep);
        assert s == [s[0]] + t;
        assert Filter(s, keep) == s <==> Filter(t, keep) == t;
        assert (forall i :: 0 <= i < |t| ==> keep(t[i])) <==> (forall i :: 0 <= i < |s| ==> keep(s[i])) by {
          assert forall i :: 0 <= i < |t| ==> t[i] == s[i + 1];
        }
      }
    }
  }

  /** AddOption: the array with `option` appended. */
  function AddOption<T>(options: seq<T>, option: T): (r: seq<T>)
    ensures |r| == |options| + 1 && r[..|options|] == options && r[|options|] == option
  {
    options + [option]
  }

  /** ContainsOption (element form): `List.Contains`. */
  predicate ContainsOption<T(==)>(options: seq<T>, option: T)
  {
    option in options
  }

  /** Removing what was just added leaves the same array as removing it before the add. */
  lemma RemoveAfterAdd<T>(options: seq<T>, option: T)
    ensures ContainsOption(AddOption(options, option), option)
    ensures Filter(AddOption(options, option), NotAmong([option])) == Filter(options, NotAmong([option]))
  {
    FilterAppend(options, [option], NotAmong([option]));
    assert Filter([option], NotAmong([option])) == [] by {
      assert [option][1..] == [];
    }
  }

  /** Filtering a prefix one element longer. */
  lemma FilterSnoc<T>(s: seq<T>, i: nat, keep: T -> bool)
    requires i < |s|
    ensures Filter(s[..i + 1], keep) == Filter(s[..i], keep) + (if keep(s[i]) then [s[i]] else [])
  {
    assert s[..i + 1] == s[..i] + [s[i]];
    FilterAppend(s[..i], [s[i]], keep);
    assert [s[i]][1..] == [];
  }

  /**
   * FilterOptions: walks the array once, collecting the options the
   * predicate accepts and noting whether any was left out.
   */
  method FilterOptions<T(==)>(options: seq<T>, keep: T -> bool) returns (kept: seq<T>, anyFiltered: bool)
    ensures kept == Filter(options, keep)
    ensures anyFiltered <==> exists i :: 0 <= i < |options| && !keep(options[i])
    ensures anyFiltered <==> |kept| < |options|
  {
    kept, anyFiltered := [], false;
    for i := 0 to |options|
      invariant kept == Filter(options[..i], keep)
      invariant |kept| <= i && (anyFiltered <==> |kept| < i)
    {
      FilterSnoc(options, i, keep);
      if keep(options[i]) {
        kept := kept + [options[i]];
      } else {
        anyFiltered := true;
      }
    }
    assert options[..|options|] == options;
    FilterKeepsAllIff(options, keep);
  }

  /** RemoveOption (element form): drops every occurrence of `removing`. */
  method RemoveOption<T(==)>(options: seq<T>, removing: T) returns (kept: seq<T>, anyFiltered: bool)
    ensures kept == Filter(options, NotAmong([removing]))
    ensures removing !in kept
    ensures forall x :: x in kept <==> x in options && x != removing
    ensures anyFiltered <==> removing in options
  {
    kept, anyFiltered := RemoveMultipleOptions(options, [removing]);
  }

  /** RemoveMultipleOptions: drops every option that occurs in `removing`. */
  method RemoveMultipleOptions<T(==)>(options: seq<T>, removing: seq<T>) returns (kept: seq<T>, anyFiltered: bool)
    ensures kept == Filter(options, NotAmong(removing))
    ensures forall x :: x in kept <==> x in options && x !in removing
    ensures anyFiltered <==> exists x :: x in options && x in removing
  {
    kept, anyFiltered := FilterOptions(options, NotAmong(removing));
    if anyFiltered {
      var i :| 0 <= i < |options| && !NotAmong(removing)(options[i]);
      assert options[i] in options && options[i] in removing;
    }
  }

  /** RemoveOption (predicate form): drops every option the predicate accepts. */
  method RemoveOptionWhere<T(==)>(options: seq<T>, p: T -> bool) returns (kept: seq<T>, anyFiltered: bool)
    ensures kept == Filter(options, Rejected(p))
    ensures forall x :: x in kept <==> x in options && !p(x)
    ensures anyFiltered <==> exists i :: 0 <= i < |options| && p(options[i])
  {
    kept, anyFiltered := FilterOptions(options, Rejected(p));
  }

  /** ContainsOption (predicate form): the first-match loop with early return. */
  method ContainsOptionWhere<T>(options: seq<T>, p: T -> bool) returns (found: bool)
    ensures found <==> exists i :: 0 <= i < |options| && p(options[i])
  {
    for i := 0 to |options|
      invariant forall j :: 0 <= j < i ==> !p(options[j])
    {
      if p(options[i]) {
        return true;
      }
    }
    return false;
  }
}
