/** `sortedByDescending { it.episode.published }` from the Kotlin standard library: a
    stable sort, newest entry first. The module gives a specification of stable descending
    sorting (IsStableSortDesc), one function that meets it (a stable insertion sort), and
    the proof that the specification admits exactly one result, so any stable sort,
    whatever its algorithm, produces the same sequence. */
module SortByPublished {
  import opened Episodes

  /** Non-increasing `published` values: for every i < j, s[i] does not come before s[j]. */
  ghost predicate SortedDesc(s: seq<EpisodeToPodcast>)
  {
    forall i, j :: 0 <= i < j < |s| ==> Published(s[i]) >= Published(s[j])
  }

  /** The entries of `s` whose `published` value is `t`, in the order they have in `s`. */
  function PublishedAt(s: seq<EpisodeToPodcast>, t: int): seq<EpisodeToPodcast>
  {
    if s == [] then []
    else (if Published(s[0]) == t then [s[0]] else []) + PublishedAt(s[1..], t)
  }

  /** `r` is `s` stably sorted newest first: `r` is sorted, is a permutation of `s`, and
      entries with equal `published` values keep the relative order they have in `s`. */
  ghost predicate IsStableSortDesc(s: seq<EpisodeToPodcast>, r: seq<EpisodeToPodcast>)
  {
    && SortedDesc(r)
    && multiset(r) == multiset(s)
    && forall t :: PublishedAt(r, t) == PublishedAt(s, t)
  }

  lemma {:induction false} PublishedAtAppend(a: seq<EpisodeToPodcast>, b: seq<EpisodeToPodcast>, t: int)
    ensures PublishedAt(a + b, t) == PublishedAt(a, t) + PublishedAt(b, t)
    decreases |a|
  {
    if a != [] {
      assert (a + b)[1..] == a[1..] + b;
      PublishedAtAppend(a[1..], b, t);
    } else {
      assert a + b == b;
    }
  }

  /** Every entry that PublishedAt keeps is an entry of `s` with `published` value `t`, and every
      such entry of `s` is kept. */
  lemma {:induction false} PublishedAtMembers(s: seq<EpisodeToPodcast>, t: int, e: EpisodeToPodcast)
    ensures e in PublishedAt(s, t) <==> e in s && Published(e) == t
  {
    if s != [] {
      PublishedAtMembers(s[1..], t, e);
      assert s == [s[0]] + s[1..];
    }
  }

  /** Places `x` in front of the first entry of `s` that is not newer than `x`. */
  function Insert(x: EpisodeToPodcast, s: seq<EpisodeToPodcast>): (r: seq<EpisodeToPodcast>)
    ensures multiset(r) == multiset(s) + multiset{x}
  {
    if s == [] then [x]
    else if Published(s[0]) > Published(x) then
      assert s == [s[0]] + s[1..];
      [s[0]] + Insert(x, s[1..])
    else
      [x] + s
  }

  /** Inserting into a sorted sequence keeps it sorted. */
  lemma {:induction false} InsertSorted(x: EpisodeToPodcast, s: seq<EpisodeToPodcast>)
    requires SortedDesc(s)
    ensures SortedDesc(Insert(x, s))
  {
    if s != [] && Published(s[0]) > Published(x) {
      var rest := Insert(x, s[1..]);
      InsertSorted(x, s[1..]);
      forall k | 0 <= k < |rest| ensures Published(s[0]) >= Published(rest[k]) {
        assert rest[k] in multiset(rest);
        if rest[k] != x {
          assert rest[k] in multiset(s[1..]);
          var m :| 1 <= m < |s| && s[m] == rest[k];
        }
      }
      var r := [s[0]] + rest;
      forall i, j | 0 <= i < j < |r| ensures Published(r[i]) >= Published(r[j]) {
        if i > 0 {
          assert r[i] == rest[i - 1] && r[j] == rest[j - 1];
        } else {
          assert r[j] == rest[j - 1];
        }
      }
    }
  }

  /** Inserting `x` puts it before every entry of `s` with its own `published` value, and
      moves no entry of `s` past another one with the same value. */
  lemma {:induction false} InsertPublishedAt(x: EpisodeToPodcast, s: seq<EpisodeToPodcast>, t: int)
    ensures PublishedAt(Insert(x, s), t) == (if Published(x) == t then [x] else []) + PublishedAt(s, t)
  {
    if s == [] {
      assert Insert(x, s) == [x] + s;
      PublishedAtAppend([x], s, t);
    } else if Published(s[0]) > Published(x) {
      assert Insert(x, s) == [s[0]] + Insert(x, s[1..]);
      assert s == [s[0]] + s[1..];
      InsertPublishedAt(x, s[1..], t);
      PassNewerEntry(x, s[0], Insert(x, s[1..]), s[1..], t);
    } else {
      assert Insert(x, s) == [x] + s;
      PublishedAtAppend([x], s, t);
    }
  }

  /** Moving `x` past an entry `y` with a larger `published` value does not change the
      order of the entries at any one value. */
  lemma PassNewerEntry(x: EpisodeToPodcast, y: EpisodeToPodcast, rest: seq<EpisodeToPodcast>,
                       tail: seq<EpisodeToPodcast>, t: int)
    requires Published(y) > Published(x)
    requires PublishedAt(rest, t) == (if Published(x) == t then [x] else []) + PublishedAt(tail, t)
    ensures PublishedAt([y] + rest, t) == (if Published(x) == t then [x] else []) + PublishedAt([y] + tail, t)
  {
    PublishedAtAppend([y], rest, t);
    PublishedAtAppend([y], tail, t);
    assert PublishedAt([y], t) == (if Published(y) == t then [y] else []) + PublishedAt([], t);
  }

  /** The stable sort newest first, built by insertion. */
  function SortByPublishedDesc(s: seq<EpisodeToPodcast>): (r: seq<EpisodeToPodcast>)
    ensures IsStableSortDesc(s, r)
  {
    if s == [] then []
    else
      var rest := SortByPublishedDesc(s[1..]);
      assert s == [s[0]] + s[1..];
      InsertSorted(s[0], rest);
      assert forall t :: PublishedAt(Insert(s[0], rest), t) == PublishedAt(s, t) by {
        forall t ensures PublishedAt(Insert(s[0], rest), t) == PublishedAt(s, t) {
          InsertPublishedAt(s[0], rest, t);
        }
      }
      Insert(s[0], rest)
  }

  /** A sequence whose PublishedAt at some value is non-empty has an entry with that value. */
  lemma PublishedAtNonEmpty(s: seq<EpisodeToPodcast>, t: int) returns (i: nat)
    requires PublishedAt(s, t) != []
    ensures i < |s| && Published(s[i]) == t
  {
    PublishedAtMembers(s, t, PublishedAt(s, t)[0]);
    i :| 0 <= i < |s| && s[i] == PublishedAt(s, t)[0];
  }

  /** The first entry of a non-empty sequence is kept at its own `published` value. */
  lemma NewestEntryIsKept(s: seq<EpisodeToPodcast>)
    ensures s != [] ==> PublishedAt(s, Published(s[0])) != []
  {
  }

  /** A sequence agrees at every value with the empty one only if it is empty itself. */
  lemma OnlyEmptyAgreesWithEmpty(a: seq<EpisodeToPodcast>, b: seq<EpisodeToPodcast>)
    requires forall t :: PublishedAt(a, t) == PublishedAt(b, t)
    ensures a == [] <==> b == []
  {
    NewestEntryIsKept(a);
    NewestEntryIsKept(b);
  }

  /** Dropping the newest entry of a sorted sequence leaves it sorted. */
  lemma SortedTail(s: seq<EpisodeToPodcast>)
    requires s != [] && SortedDesc(s)
    ensures SortedDesc(s[1..])
  {
    forall i, j | 0 <= i < j < |s| - 1 ensures Published(s[1..][i]) >= Published(s[1..][j]) {
      assert s[1..][i] == s[i + 1] && s[1..][j] == s[j + 1];
    }
  }

  /** Two sorted, non-empty sequences that agree at every value start with the same entry. */
  lemma HeadsAgree(a: seq<EpisodeToPodcast>, b: seq<EpisodeToPodcast>)
    requires a != [] && b != []
    requires SortedDesc(a) && SortedDesc(b)
    requires forall t :: PublishedAt(a, t) == PublishedAt(b, t)
    ensures a[0] == b[0]
  {
    var ta, tb := Published(a[0]), Published(b[0]);
    assert PublishedAt(a, ta) == [a[0]] + PublishedAt(a[1..], ta);
    assert PublishedAt(b, tb) == [b[0]] + PublishedAt(b[1..], tb);
    var j := PublishedAtNonEmpty(b, ta);
    var i := PublishedAtNonEmpty(a, tb);
    assert ta == tb;
    assert PublishedAt(a, ta) == PublishedAt(b, ta);
    assert PublishedAt(a, ta)[0] == a[0] && PublishedAt(b, tb)[0] == b[0];
  }

  /** Removing an equal first entry from two sequences that agree at every value leaves
      two sequences that still agree at every value. */
  lemma TailsAgree(a: seq<EpisodeToPodcast>, b: seq<EpisodeToPodcast>)
    requires a != [] && b != [] && a[0] == b[0]
    requires forall t :: PublishedAt(a, t) == PublishedAt(b, t)
    ensures forall t :: PublishedAt(a[1..], t) == PublishedAt(b[1..], t)
  {
    forall t ensures PublishedAt(a[1..], t) == PublishedAt(b[1..], t) {
      var h := if Published(a[0]) == t then [a[0]] else [];
      assert PublishedAt(a, t) == h + PublishedAt(a[1..], t);
      assert PublishedAt(b, t) == h + PublishedAt(b[1..], t);
      assert PublishedAt(a[1..], t) == PublishedAt(a, t)[|h|..];
    }
  }

  /** Two sorted sequences that agree on their entries at every value are equal: the
      stable sort specification leaves no freedom in the result. */
  lemma {:induction false} StableSortUnique(a: seq<EpisodeToPodcast>, b: seq<EpisodeToPodcast>)
    requires SortedDesc(a) && SortedDesc(b)
    requires forall t :: PublishedAt(a, t) == PublishedAt(b, t)
    ensures a == b
    decreases |a|
  {
    if a == [] || b == [] {
      OnlyEmptyAgreesWithEmpty(a, b);
    } else {
      HeadsAgree(a, b);
      TailsAgree(a, b);
      SortedTail(a);
      SortedTail(b);
      StableSortUnique(a[1..], b[1..]);
      assert a == [a[0]] + a[1..];
      assert b == [b[0]] + b[1..];
    }
  }

  /** Any two stable descending sorts of the same input are the same sequence. */
  lemma StableSortDeterministic(s: seq<EpisodeToPodcast>, r1: seq<EpisodeToPodcast>, r2: seq<EpisodeToPodcast>)
    requires IsStableSortDesc(s, r1) && IsStableSortDesc(s, r2)
    ensures r1 == r2
  {
    StableSortUnique(r1, r2);
  }

  /** Sorting a sequence that is already newest first leaves it unchanged. */
  lemma {:induction false} SortSortedIsIdentity(s: seq<EpisodeToPodcast>)
    requires SortedDesc(s)
    ensures SortByPublishedDesc(s) == s
  {
    StableSortUnique(SortByPublishedDesc(s), s);
  }

  /** Sorting is idempotent. */
  lemma SortIdempotent(s: seq<EpisodeToPodcast>)
    ensures SortByPublishedDesc(SortByPublishedDesc(s)) == SortByPublishedDesc(s)
  {
    SortSortedIsIdentity(SortByPublishedDesc(s));
  }
}
