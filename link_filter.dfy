/**
 * The search / favourites filter of a category view.
 *
 * A record is kept when the lower-cased search term occurs in its lower-cased
 * name or URL, and, when "favourites only" is on, its favourite flag is set.
 * The filter yields `(original index, record)` pairs in catalog order.
 * Lower-casing is ASCII only; the substring test is Python's `in` on strings.
 */
module LinkFilter {
  import opened LinkCatalog

  /** ASCII lower-casing of one character. */
  function LowerChar(c: char): char {
    if 'A' <= c <= 'Z' then (c as int + 32) as char else c
  }

  /**
   * ASCII `str.lower`: same length, no upper-case letter left, each upper-case
   * letter replaced by its lower-case partner and every other character kept.
   */
  function Lower(s: string): (r: string)
    ensures |r| == |s|
    ensures forall i :: 0 <= i < |r| ==> !('A' <= r[i] <= 'Z')
    ensures forall i :: 0 <= i < |s| && 'A' <= s[i] <= 'Z' ==> 'a' <= r[i] <= 'z' && r[i] as int == s[i] as int + 32
    ensures forall i :: 0 <= i < |s| && !('A' <= s[i] <= 'Z') ==> r[i] == s[i]
  {
    seq(|s|, i requires 0 <= i < |s| => LowerChar(s[i]))
  }

  /** `needle in hay` for strings: `needle` is a prefix of `hay` or of one of its suffixes. */
  function Contains(hay: string, needle: string): bool
    decreases |hay|
  {
    (|needle| <= |hay| && hay[..|needle|] == needle)
    || (hay != [] && Contains(hay[1..], needle))
  }

  /** `needle` occurs in `hay` at position `i`. */
  ghost predicate OccursAt(hay: string, needle: string, i: int) {
    0 <= i && i + |needle| <= |hay| && hay[i..i + |needle|] == needle
  }

  /** The search half of the filter: the term occurs in the name or in the URL, case-insensitively. */
  predicate MatchesSearch(link: Link, termo: string) {
    Contains(Lower(link.nome), Lower(termo)) || Contains(Lower(link.url), Lower(termo))
  }

  /** A record is shown: it matches the search, and it is a favourite when only favourites are asked for. */
  predicate Keep(link: Link, termo: string, soFavoritos: bool) {
    MatchesSearch(link, termo) && (if soFavoritos then link.fav else true)
  }

  /**
   * The pairs `(index, record)` the view shows for `links`, in catalog order.
   * Defined from the back, as the loop builds it by appending.
   */
  function Filtered(links: seq<Link>, termo: string, soFavoritos: bool): (r: seq<(nat, Link)>)
    ensures |r| <= |links|
    decreases |links|
  {
    if links == [] then []
    else
      var n := |links| - 1;
      Filtered(links[..n], termo, soFavoritos) + (if Keep(links[n], termo, soFavoritos) then [(n, links[n])] else [])
  }

  /** The pairs of `ps` whose record is a favourite, in order. */
  function FavouritesOf(ps: seq<(nat, Link)>): (r: seq<(nat, Link)>)
    ensures |r| <= |ps|
    ensures forall k :: 0 <= k < |r| ==> r[k] in ps && r[k].1.fav
    decreases |ps|
  {
    if ps == [] then []
    else
      var n := |ps| - 1;
      FavouritesOf(ps[..n]) + (if ps[n].1.fav then [ps[n]] else [])
  }

  // ---------------------------------------------------------------------------
  // Lemmas

  /**
   * `r` lists only kept records of `links`: every pair holds a valid index and
   * the record at it, the record is kept, and indices strictly increase
   * (catalog order).
   */
  ghost predicate OnlyKept(r: seq<(nat, Link)>, links: seq<Link>, termo: string, soFavoritos: bool) {
    && (forall k :: 0 <= k < |r| ==> r[k].0 < |links| && r[k].1 == links[r[k].0])
    && (forall k :: 0 <= k < |r| ==> Keep(r[k].1, termo, soFavoritos))
    && (forall a, b :: 0 <= a < b < |r| ==> r[a].0 < r[b].0)
  }

  /** `r` lists the index of every kept record of `links`. */
  ghost predicate AllKept(r: seq<(nat, Link)>, links: seq<Link>, termo: string, soFavoritos: bool) {
    forall i :: 0 <= i < |links| && Keep(links[i], termo, soFavoritos) ==>
      exists k :: 0 <= k < |r| && r[k].0 == i
  }

  /** The view lists only kept records, at their own index, in catalog order. */
  lemma {:induction false} FilteredOnlyKept(links: seq<Link>, termo: string, soFavoritos: bool)
    ensures OnlyKept(Filtered(links, termo, soFavoritos), links, termo, soFavoritos)
    decreases |links|
  {
    if links != [] {
      var n := |links| - 1;
      var front := Filtered(links[..n], termo, soFavoritos);
      FilteredOnlyKept(links[..n], termo, soFavoritos);
      var r := Filtered(links, termo, soFavoritos);
      assert r == front + (if Keep(links[n], termo, soFavoritos) then [(n, links[n])] else []);
      assert forall k :: 0 <= k < |front| ==> r[k] == front[k];
      assert forall i :: 0 <= i < n ==> links[..n][i] == links[i];
    }
  }

  /** The view lists every kept record. */
  lemma {:induction false} FilteredAllKept(links: seq<Link>, termo: string, soFavoritos: bool)
    ensures AllKept(Filtered(links, termo, soFavoritos), links, termo, soFavoritos)
    decreases |links|
  {
    if links != [] {
      var n := |links| - 1;
      var front := Filtered(links[..n], termo, soFavoritos);
      FilteredAllKept(links[..n], termo, soFavoritos);
      var r := Filtered(links, termo, soFavoritos);
      assert r == front + (if Keep(links[n], termo, soFavoritos) then [(n, links[n])] else []);
      forall i | 0 <= i < |links| && Keep(links[i], termo, soFavoritos)
        ensures exists k :: 0 <= k < |r| && r[k].0 == i
      {
        if i < n {
          assert links[..n][i] == links[i];
          var k :| 0 <= k < |front| && front[k].0 == i;
          assert r[k] == front[k];
        } else {
          assert r[|front|].0 == n;
        }
      }
    }
  }

  /** Lower-casing twice is lower-casing once. */
  lemma LowerIdempotent(s: string)
    ensures Lower(Lower(s)) == Lower(s)
  {
    var r := Lower(s);
    assert forall i :: 0 <= i < |r| ==> Lower(r)[i] == r[i];
  }

  /** `Contains` agrees with the positional definition of an occurrence. */
  lemma {:induction false} ContainsIff(hay: string, needle: string)
    ensures Contains(hay, needle) <==> exists i :: OccursAt(hay, needle, i)
    decreases |hay|
  {
    if |needle| <= |hay| && hay[..|needle|] == needle {
      assert OccursAt(hay, needle, 0);
    } else if hay == [] {
      assert |needle| > 0;
    } else {
      ContainsIff(hay[1..], needle);
      if Contains(hay[1..], needle) {
        var i :| OccursAt(hay[1..], needle, i);
        assert hay[1..][i..i + |needle|] == hay[i + 1..i + 1 + |needle|];
        assert OccursAt(hay, needle, i + 1);
      } else {
        forall i | 0 < i && i + |needle| <= |hay| ensures !OccursAt(hay, needle, i) {
          assert hay[1..][i - 1..i - 1 + |needle|] == hay[i..i + |needle|];
          assert !OccursAt(hay[1..], needle, i - 1);
        }
      }
    }
  }

  /** The empty term occurs in every string. */
  lemma EmptyTermMatches(link: Link)
    ensures MatchesSearch(link, "")
  {
    assert Lower("") == "";
    assert Lower(link.nome)[..0] == "";
  }

  /** Without a term and without the favourites switch every record is listed, at its own index. */
  lemma {:induction false} NoFilterListsAll(links: seq<Link>)
    ensures |Filtered(links, "", false)| == |links|
    ensures forall k :: 0 <= k < |links| ==> Filtered(links, "", false)[k] == (k, links[k])
    decreases |links|
  {
    if links != [] {
      var n := |links| - 1;
      var front := Filtered(links[..n], "", false);
      NoFilterListsAll(links[..n]);
      EmptyTermMatches(links[n]);
      assert Keep(links[n], "", false);
      assert Filtered(links, "", false) == front + [(n, links[n])];
    }
  }

  /** The favourites-only view is the plain search view restricted to favourites. */
  lemma {:induction false} FavouritesOnlyIsSubsequence(links: seq<Link>, termo: string)
    ensures Filtered(links, termo, true) == FavouritesOf(Filtered(links, termo, false))
    decreases |links|
  {
    if links != [] {
      var n := |links| - 1;
      var x := (n, links[n]);
      var front := Filtered(links[..n], termo, false);
      var frontFav := Filtered(links[..n], termo, true);
      FavouritesOnlyIsSubsequence(links[..n], termo);
      assert Filtered(links, termo, true) == frontFav + (if Keep(links[n], termo, true) then [x] else []);
      var all := front + (if Keep(links[n], termo, false) then [x] else []);
      assert Filtered(links, termo, false) == all;
      if Keep(links[n], termo, false) {
        assert all[..|all| - 1] == front && all[|all| - 1] == x;
      } else {
        assert all == front;
      }
    }
  }

  /** Extending the scanned prefix by one record appends that record's pair exactly when it is kept. */
  lemma FilteredStep(links: seq<Link>, n: nat, termo: string, soFavoritos: bool)
    requires n < |links|
    ensures Filtered(links[..n + 1], termo, soFavoritos) ==
            Filtered(links[..n], termo, soFavoritos) + (if Keep(links[n], termo, soFavoritos) then [(n, links[n])] else [])
  {
    assert links[..n + 1][..n] == links[..n];
    assert links[..n + 1][n] == links[n];
  }

  /** The view is empty exactly when no record of the category is kept. */
  lemma FilteredEmptyIff(links: seq<Link>, termo: string, soFavoritos: bool)
    ensures Filtered(links, termo, soFavoritos) == [] <==>
            forall i :: 0 <= i < |links| ==> !Keep(links[i], termo, soFavoritos)
  {
    var r := Filtered(links, termo, soFavoritos);
    FilteredOnlyKept(links, termo, soFavoritos);
    FilteredAllKept(links, termo, soFavoritos);
    if r != [] {
      assert Keep(links[r[0].0], termo, soFavoritos);
    }
  }
}
