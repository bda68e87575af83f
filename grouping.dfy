/**
 * Grouping the locations a server returned by document URI, and the order in
 * which the tools visit the groups: ascending by URI, each URI once.
 */
module Grouping {
  import opened Protocol
  import opened StringOrder

  /** Every URI that occurs in the location list. */
  function UriSet(locs: seq<Location>): set<string>
  {
    set i | 0 <= i < |locs| :: locs[i].uri
  }

  /** The locations with the given URI, in the order they arrived. */
  function Group(locs: seq<Location>, uri: string): seq<Location>
  {
    if locs == [] then []
    else
      var init := locs[..|locs| - 1];
      var last := locs[|locs| - 1];
      Group(init, uri) + (if last.uri == uri then [last] else [])
  }

  /** The positions in `locs` of the locations with the given URI, ascending. */
  function Indices(locs: seq<Location>, uri: string): seq<nat>
  {
    if locs == [] then []
    else Indices(locs[..|locs| - 1], uri) + (if locs[|locs| - 1].uri == uri then [|locs| - 1] else [])
  }

  /**
   * A group is exactly the subsequence of the input made of the locations
   * with that URI: its k-th element sits at position Indices[k], the
   * positions ascend, and they are all positions holding that URI.
   */
  lemma {:induction false} GroupIsSubsequence(locs: seq<Location>, uri: string)
    ensures |Indices(locs, uri)| == |Group(locs, uri)|
    ensures forall k :: 0 <= k < |Indices(locs, uri)| ==>
      Indices(locs, uri)[k] < |locs| && Group(locs, uri)[k] == locs[Indices(locs, uri)[k]]
    ensures forall k, m :: 0 <= k < m < |Indices(locs, uri)| ==> Indices(locs, uri)[k] < Indices(locs, uri)[m]
    ensures forall i :: 0 <= i < |locs| ==> (locs[i].uri == uri <==> i in Indices(locs, uri))
  {
    if locs != [] {
      var init := locs[..|locs| - 1];
      GroupIsSubsequence(init, uri);
      assert forall i :: 0 <= i < |init| ==> init[i] == locs[i];
    }
  }

  /** Every member of a group carries the group's URI and comes from the input. */
  lemma {:induction false} GroupMembers(locs: seq<Location>, uri: string)
    ensures forall k :: 0 <= k < |Group(locs, uri)| ==> Group(locs, uri)[k].uri == uri && Group(locs, uri)[k] in locs
  {
    GroupIsSubsequence(locs, uri);
  }

  /** A group is empty exactly when its URI does not occur. */
  lemma GroupEmptyIff(locs: seq<Location>, uri: string)
    ensures Group(locs, uri) == [] <==> uri !in UriSet(locs)
  {
    GroupIsSubsequence(locs, uri);
    if uri in UriSet(locs) {
      var i :| 0 <= i < |locs| && locs[i].uri == uri;
      assert i in Indices(locs, uri);
    }
  }

  /** The size of a group is the number of input positions holding its URI. */
  lemma {:induction false} GroupSizeCountsUri(locs: seq<Location>, uri: string)
    ensures |Group(locs, uri)| == |set i | 0 <= i < |locs| && locs[i].uri == uri|
  {
    if locs != [] {
      var n := |locs| - 1;
      var init := locs[..n];
      GroupSizeCountsUri(init, uri);
      var before := set i | 0 <= i < |init| && init[i].uri == uri;
      var after := set i | 0 <= i < |locs| && locs[i].uri == uri;
      assert forall i :: 0 <= i < n ==> init[i] == locs[i];
      if locs[n].uri == uri {
        assert after == before + {n};
        assert n !in before;
      } else {
        assert after == before;
      }
    }
  }

  /** Each location lands in the group of its own URI and in no other group. */
  lemma LandsInOwnGroup(locs: seq<Location>, i: nat, uri: string)
    requires i < |locs|
    ensures locs[i] in Group(locs, uri) <==> locs[i].uri == uri
  {
    GroupIsSubsequence(locs, uri);
    GroupMembers(locs, uri);
    if locs[i].uri == uri {
      var k :| 0 <= k < |Indices(locs, uri)| && Indices(locs, uri)[k] == i;
      assert Group(locs, uri)[k] == locs[i];
    }
  }

  /** The groups of the given URIs, one after another. */
  function Concat(uris: seq<string>, locs: seq<Location>): seq<Location>
  {
    if uris == [] then [] else Group(locs, uris[0]) + Concat(uris[1..], locs)
  }

  lemma {:induction false} ConcatSnoc(uris: seq<string>, init: seq<Location>, x: Location)
    requires Distinct(uris)
    ensures multiset(Concat(uris, init + [x])) ==
      multiset(Concat(uris, init)) + (if x.uri in uris then multiset{x} else multiset{})
  {
    if uris != [] {
      var locs := init + [x];
      assert locs[..|locs| - 1] == init;
      assert Distinct(uris[1..]);
      ConcatSnoc(uris[1..], init, x);
      assert x.uri in uris <==> x.uri == uris[0] || x.uri in uris[1..];
      assert x.uri == uris[0] ==> x.uri !in uris[1..];
    }
  }

  /**
   * Grouping is a partition: over distinct URIs that cover every location, the
   * groups together hold each location exactly as often as the input does.
   */
  lemma {:induction false} GroupsPartition(uris: seq<string>, locs: seq<Location>)
    requires Distinct(uris)
    requires forall i :: 0 <= i < |locs| ==> locs[i].uri in uris
    ensures multiset(Concat(uris, locs)) == multiset(locs)
    ensures |Concat(uris, locs)| == |locs|
  {
    if locs == [] {
      ConcatEmpty(uris);
    } else {
      var init := locs[..|locs| - 1];
      var x := locs[|locs| - 1];
      assert locs == init + [x];
      GroupsPartition(uris, init);
      ConcatSnoc(uris, init, x);
    }
    assert |multiset(Concat(uris, locs))| == |Concat(uris, locs)|;
  }

  lemma {:induction false} ConcatEmpty(uris: seq<string>)
    ensures Concat(uris, []) == []
  {
    if uris != [] {
      ConcatEmpty(uris[1..]);
    }
  }

  /** Inserting a URI into an ascending list without repetitions. */
  function InsertUri(u: string, s: seq<string>): seq<string>
  {
    if s == [] then [u]
    else if u == s[0] then s
    else if Less(u, s[0]) then [u] + s
    else [s[0]] + InsertUri(u, s[1..])
  }

  lemma {:induction false} InsertUriSpec(u: string, s: seq<string>)
    requires StrictlySorted(s)
    ensures StrictlySorted(InsertUri(u, s))
    ensures forall x :: x in InsertUri(u, s) <==> x == u || x in s
  {
    if s != [] && u != s[0] {
      if Less(u, s[0]) {
        forall j | 0 < j < |s|
          ensures Less(u, s[j])
        {
          LessTransitive(u, s[0], s[j]);
        }
      } else {
        LessTotal(u, s[0]);
        var t := s[1..];
        assert StrictlySorted(t);
        InsertUriSpec(u, t);
        var r := InsertUri(u, t);
        forall j | 0 <= j < |r|
          ensures Less(s[0], r[j])
        {
          assert r[j] in r;
        }
      }
    }
  }

  /**
   * The reference order the tools visit files in: the URIs of the locations,
   * each once, ascending. Defined by insertion, independently of the sort.
   */
  function UriOrder(locs: seq<Location>): seq<string>
  {
    if locs == [] then [] else InsertUri(locs[|locs| - 1].uri, UriOrder(locs[..|locs| - 1]))
  }

  lemma {:induction false} UriOrderSpec(locs: seq<Location>)
    ensures StrictlySorted(UriOrder(locs))
    ensures forall u :: u in UriOrder(locs) <==> u in UriSet(locs)
  {
    if locs != [] {
      var init := locs[..|locs| - 1];
      UriOrderSpec(init);
      InsertUriSpec(locs[|locs| - 1].uri, UriOrder(init));
      assert forall i :: 0 <= i < |init| ==> init[i] == locs[i];
      assert UriSet(locs) == UriSet(init) + {locs[|locs| - 1].uri};
    }
  }

  /** An ascending list without repetitions is determined by its elements. */
  lemma {:induction false} SortedUnique(a: seq<string>, b: seq<string>)
    requires StrictlySorted(a) && StrictlySorted(b)
    requires forall x :: x in a <==> x in b
    ensures a == b
  {
    if a != [] && b != [] {
      assert a[0] in b && b[0] in a;
      if a[0] != b[0] {
        var k :| 0 <= k < |b| && b[k] == a[0];
        var m :| 0 <= m < |a| && a[m] == b[0];
        LessAsymmetric(a[0], b[0]);
        assert false;
      }
      StrictIsDistinct(a);
      StrictIsDistinct(b);
      forall x
        ensures x in a[1..] <==> x in b[1..]
      {
        if x in a[1..] {
          assert x != a[0];
          assert x in b;
        }
        if x in b[1..] {
          assert x != b[0];
          assert x in a;
        }
      }
      assert StrictlySorted(a[1..]) && StrictlySorted(b[1..]);
      SortedUnique(a[1..], b[1..]);
      assert a == [a[0]] + a[1..] && b == [b[0]] + b[1..];
    } else if a != [] {
      ElementOf(a, 0);
    } else if b != [] {
      ElementOf(b, 0);
    }
  }

  lemma ElementOf(s: seq<string>, i: nat)
    requires i < |s|
    ensures s[i] in s
  {
  }

  lemma PrefixStep(locs: seq<Location>, i: nat, uri: string)
    requires i < |locs|
    ensures Group(locs[..i + 1], uri) == Group(locs[..i], uri) + (if locs[i].uri == uri then [locs[i]] else [])
    ensures UriSet(locs[..i + 1]) == UriSet(locs[..i]) + {locs[i].uri}
  {
    assert locs[..i + 1][..i] == locs[..i];
    assert forall k :: 0 <= k < i ==> locs[..i + 1][k] == locs[..i][k];
  }

  /** The per-URI map the tools build, appending each location to its URI's list. */
  method GroupByUri(locs: seq<Location>) returns (groups: map<string, seq<Location>>)
    ensures groups.Keys == UriSet(locs)
    ensures forall u :: u in groups ==> groups[u] == Group(locs, u)
  {
    groups := map[];
    for i := 0 to |locs|
      invariant groups.Keys == UriSet(locs[..i])
      invariant forall u :: u in groups ==> groups[u] == Group(locs[..i], u)
    {
      var loc := locs[i];
      var existing := if loc.uri in groups then groups[loc.uri] else [];
      var updated := groups[loc.uri := existing + [loc]];
      PrefixStep(locs, i, loc.uri);
      GroupEmptyIff(locs[..i], loc.uri);
      forall u | u in updated
        ensures updated[u] == Group(locs[..i + 1], u)
      {
        PrefixStep(locs, i, u);
      }
      groups := updated;
    }
    assert locs[..|locs|] == locs;
  }

  /**
   * The keys of the map, collected in whatever order the map yields them and
   * then sorted with `sort.Strings`: the URIs ascending, each once.
   */
  method SortedUris(keys: set<string>) returns (uris: seq<string>)
    ensures StrictlySorted(uris)
    ensures forall u :: u in uris <==> u in keys
    ensures |uris| == |keys|
  {
    var a := new string[|keys|];
    var rest := keys;
    var i := 0;
    while rest != {}
      invariant rest <= keys
      invariant i + |rest| == |keys|
      invariant forall k :: 0 <= k < i ==> a[k] in keys && a[k] !in rest
      invariant forall u :: u in keys && u !in rest ==> u in a[..i]
      invariant Distinct(a[..i])
    {
      var u :| u in rest;
      a[i] := u;
      assert a[..i + 1] == a[..i] + [u];
      rest := rest - {u};
      i := i + 1;
    }
    assert a[..i] == a[..];
    ghost var collected := a[..];
    SortStrings(a);
    uris := a[..];
    DistinctPermutation(collected, uris);
    SortedDistinctIsStrict(uris);
    assert forall u :: u in uris <==> u in multiset(collected);
  }
}
