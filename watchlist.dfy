/** The watchlist of watchlist.py: an in-memory list of ticker strings, shared by the
    window's callbacks, and the JSON file watchlist_config.json that mirrors it. */
module WatchlistStore {
  import opened Wrappers

  type Ticker = string

  /** Width, in characters, of a company name shown in full on a watchlist row. */
  const NameWidth: nat := 15

  /** What stands for a company name the provider did not return. */
  const MissingName: string := "N/A"

  predicate NoDuplicates(s: seq<Ticker>) {
    forall i, j :: 0 <= i < j < |s| ==> s[i] != s[j]
  }

  /** How many times `t` occurs in `s`. */
  function Occurrences(s: seq<Ticker>, t: Ticker): nat {
    if s == [] then 0 else (if s[0] == t then 1 else 0) + Occurrences(s[1..], t)
  }

  lemma {:induction false} OccurrencesAppend(s: seq<Ticker>, u: seq<Ticker>, t: Ticker)
    ensures Occurrences(s + u, t) == Occurrences(s, t) + Occurrences(u, t)
  {
    if s != [] {
      assert (s + u)[1..] == s[1..] + u;
      OccurrencesAppend(s[1..], u, t);
    } else {
      assert s + u == u;
    }
  }

  /** A ticker occurs in a list exactly when it is counted there at least once. */
  lemma {:induction false} OccurrencesPositive(s: seq<Ticker>, t: Ticker)
    ensures Occurrences(s, t) > 0 <==> t in s
  {
    if s != [] {
      OccurrencesPositive(s[1..], t);
      assert t in s <==> s[0] == t || t in s[1..];
    }
  }

  /** In a list without duplicates every ticker is counted at most once. */
  lemma {:induction false} OccurrencesUnique(s: seq<Ticker>, t: Ticker)
    requires NoDuplicates(s)
    ensures Occurrences(s, t) <= 1
  {
    if s != [] {
      assert NoDuplicates(s[1..]) by {
        forall i, j | 0 <= i < j < |s[1..]| ensures s[1..][i] != s[1..][j] {
          assert s[1..][i] == s[i + 1] && s[1..][j] == s[j + 1];
        }
      }
      OccurrencesUnique(s[1..], t);
      if s[0] == t {
        forall k | 0 <= k < |s[1..]| ensures s[1..][k] != t {
          assert s[1..][k] == s[k + 1];
        }
        OccurrencesPositive(s[1..], t);
      }
    }
  }

  /** The list after add_ticker_to_watchlist: the ticker goes at the end, and only when the
      provider returned a non-empty info snapshot for it and it is not listed yet. */
  function AfterAdd(s: seq<Ticker>, t: Ticker, infoNonEmpty: bool): (r: seq<Ticker>)
    ensures |s| <= |r| <= |s| + 1
    ensures r[..|s|] == s
    ensures |r| == |s| + 1 <==> infoNonEmpty && t !in s
    ensures |r| == |s| + 1 ==> r[|s|] == t
    ensures forall u :: u in r <==> u in s || (u == t && infoNonEmpty)
    ensures NoDuplicates(s) ==> NoDuplicates(r)
  {
    if infoNonEmpty && t !in s then s + [t] else s
  }

  /** Adding a ticker the provider knows to a duplicate-free list leaves it there exactly once. */
  lemma AddedTickerOccursOnce(s: seq<Ticker>, t: Ticker)
    requires NoDuplicates(s)
    ensures Occurrences(AfterAdd(s, t, true), t) == 1
  {
    var r := AfterAdd(s, t, true);
    OccurrencesPositive(r, t);
    OccurrencesUnique(r, t);
  }

  /** Position of the first occurrence of `t` in `s`, as Python's list.index finds it. */
  function IndexOf(s: seq<Ticker>, t: Ticker): (i: nat)
    requires t in s
    ensures i < |s| && s[i] == t
    ensures t !in s[..i]
  {
    if s[0] == t then 0
    else
      assert t in s[1..] by { assert s == [s[0]] + s[1..]; }
      var i := 1 + IndexOf(s[1..], t);
      assert s[..i] == [s[0]] + s[1..][..i - 1];
      i
  }

  /** The list after Python's list.remove: the first occurrence of `t` is deleted and every
      other entry keeps its relative order. */
  function RemoveFirst(s: seq<Ticker>, t: Ticker): (r: seq<Ticker>)
    requires t in s
    ensures |r| == |s| - 1
    ensures forall k :: 0 <= k < IndexOf(s, t) ==> r[k] == s[k]
    ensures forall k :: IndexOf(s, t) <= k < |r| ==> r[k] == s[k + 1]
  {
    var i := IndexOf(s, t);
    s[..i] + s[i + 1..]
  }

  /** Removing deletes exactly one copy of `t` and nothing else. */
  lemma RemoveFirstDeletesOneCopy(s: seq<Ticker>, t: Ticker)
    requires t in s
    ensures multiset(RemoveFirst(s, t)) == multiset(s) - multiset{t}
    ensures Occurrences(RemoveFirst(s, t), t) == Occurrences(s, t) - 1
  {
    var i := IndexOf(s, t);
    assert s == s[..i] + [t] + s[i + 1..];
    assert RemoveFirst(s, t) == s[..i] + s[i + 1..];
    OccurrencesAppend(s[..i] + [t], s[i + 1..], t);
    OccurrencesAppend(s[..i], [t], t);
    OccurrencesAppend(s[..i], s[i + 1..], t);
  }

  /** From a duplicate-free list, remove leaves a duplicate-free list without `t`. */
  lemma RemoveFirstClearsTicker(s: seq<Ticker>, t: Ticker)
    requires t in s && NoDuplicates(s)
    ensures NoDuplicates(RemoveFirst(s, t))
    ensures t !in RemoveFirst(s, t)
  {
  }

  /** The company label of a watchlist row: the provider's short name, or "N/A" when it has
      none, cut to its first 15 characters followed by "... " when it is longer. */
  function CompanyLabel(shortName: Option<string>): (r: string)
    ensures |r| <= NameWidth + 4
    ensures shortName.None? ==> r == MissingName
    ensures shortName.Some? && |shortName.value| <= NameWidth ==> r == shortName.value
    ensures shortName.Some? && |shortName.value| > NameWidth ==>
              |r| == NameWidth + 4 && r[..NameWidth] == shortName.value[..NameWidth] && r[NameWidth..] == "... "
    ensures shortName.Some? ==> (|r| <= NameWidth <==> |shortName.value| <= NameWidth)
  {
    var name := if shortName.Some? then shortName.value else MissingName;
    if |name| > NameWidth then name[..NameWidth] + "... " else name
  }

  /** watchlist_config.json: one JSON array of ticker strings. */
  class Store {
    var contents: seq<Ticker>

    /** Loading watchlist.py: a store file that does not exist yet is created holding []. */
    constructor Init(existing: Option<seq<Ticker>>)
      ensures contents == if existing.Some? then existing.value else []
    {
      contents := if existing.Some? then existing.value else [];
    }

    /** load_watchlist: the list the file holds. */
    method Load() returns (r: seq<Ticker>)
      ensures r == contents
    {
      r := contents;
    }

    /** save_watchlist: the file is overwritten with the given list. */
    method Save(list: seq<Ticker>)
      modifies this
      ensures contents == list
    {
      contents := list;
    }
  }

  /** The list object that open_watchlist loads and that the add and remove callbacks
      update in place. Valid() is the mirror invariant: the file holds the list. */
  class Watchlist {
    var items: seq<Ticker>
    const store: Store

    ghost predicate Valid()
      reads this, store
    {
      store.contents == items
    }

    /** open_watchlist: `watchlist = load_watchlist()`. */
    constructor Open(file: Store)
      ensures store == file && items == file.contents
      ensures Valid()
    {
      store := file;
      var loaded := file.Load();
      items := loaded;
    }

    /** add_ticker_to_watchlist, with the provider's info lookup reduced to whether it came back
        non-empty. A refused add writes nothing. */
    method Add(ticker: Ticker, infoNonEmpty: bool)
      requires Valid()
      modifies this, store
      ensures Valid()
      ensures items == AfterAdd(old(items), ticker, infoNonEmpty)
      ensures !(infoNonEmpty && ticker !in old(items)) ==> unchanged(this, store)
    {
      if infoNonEmpty && ticker !in items {
        items := items + [ticker];
        store.Save(items);
      }
    }

    /** remove_ticker. `ok` is false where list.remove raises ValueError (the ticker is not
        listed); the exception leaves the list and the file as they were. */
    method Remove(ticker: Ticker) returns (ok: bool)
      requires Valid()
      modifies this, store
      ensures Valid()
      ensures ok <==> ticker in old(items)
      ensures ok ==> items == RemoveFirst(old(items), ticker)
      ensures !ok ==> unchanged(this, store)
    {
      if ticker !in items {
        return false;
      }
      items := RemoveFirst(items, ticker);
      store.Save(items);
      ok := true;
    }
  }
}
