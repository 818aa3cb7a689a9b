/**
  The retention sweep of the file watcher's `main`: every entry of the media
  directory whose age, in whole days, exceeds one is deleted. The directory
  listing is abstracted to (path, modification time) pairs with times in
  whole seconds.
 */
module WatcherSweep {

  datatype Entry = Entry(path: string, mtime: int)

  const SecondsPerDay := 86400

  /**
    `(now - datetime.fromtimestamp(mtime)).days`: the age in whole days,
    rounded down (a time in the future gives a negative age). The day length
    is written as the literal 86400 (`SecondsPerDay`) so that the division and
    the bounds below stay linear arithmetic for the verifier.
   */
  function AgeDays(now: int, mtime: int): (d: int)
    ensures d * 86400 <= now - mtime < d * 86400 + 86400
  {
    (now - mtime) / 86400
  }

  /** The deletion test of the sweep: an entry goes once at least two full days have passed. */
  predicate TooOld(e: Entry, now: int)
    ensures TooOld(e, now) <==> now - e.mtime >= 2 * 86400
  {
    AgeDays(now, e.mtime) > 1
  }

  /** The entries of `listing` the sweep deletes, in listing order. */
  function Expired(listing: seq<Entry>, now: int): seq<Entry>
  {
    if listing == [] then []
    else
      var e := listing[|listing| - 1];
      Expired(listing[..|listing| - 1], now) + (if TooOld(e, now) then [e] else [])
  }

  /** The entries of `listing` the sweep leaves, in listing order. */
  function Retained(listing: seq<Entry>, now: int): seq<Entry>
  {
    if listing == [] then []
    else
      var e := listing[|listing| - 1];
      Retained(listing[..|listing| - 1], now) + (if TooOld(e, now) then [] else [e])
  }

  /** Extending the listing by one entry extends exactly one of the two filters. */
  lemma SweepStep(listing: seq<Entry>, i: nat, now: int)
    requires i < |listing|
    ensures Expired(listing[..i + 1], now) == Expired(listing[..i], now) + (if TooOld(listing[i], now) then [listing[i]] else [])
    ensures Retained(listing[..i + 1], now) == Retained(listing[..i], now) + (if TooOld(listing[i], now) then [] else [listing[i]])
  {
    assert listing[..i + 1][..i] == listing[..i];
  }

  /** Unlinking the entry right after the kept ones leaves the kept ones and the rest of the listing. */
  lemma DropAt(kept: seq<Entry>, rest: seq<Entry>)
    requires rest != []
    ensures (kept + rest)[..|kept|] + (kept + rest)[|kept| + 1..] == kept + rest[1..]
  {
    assert (kept + rest)[..|kept|] == kept;
    assert (kept + rest)[|kept| + 1..] == rest[1..];
  }

  /** Leaving the entry right after the kept ones in place makes it one of the kept ones. */
  lemma KeepAt(kept: seq<Entry>, rest: seq<Entry>)
    requires rest != []
    ensures kept + rest == (kept + [rest[0]]) + rest[1..]
  {
    assert rest == [rest[0]] + rest[1..];
  }

  /**
    One turn of the sweep's loop, stated on the directory as the loop sees
    it: the kept entries, then the entries not yet visited.
   */
  lemma SweepLoopStep(listing: seq<Entry>, i: nat, now: int)
    requires i < |listing|
    ensures var r := Retained(listing[..i], now) + listing[i..];
      var k := |Retained(listing[..i], now)|;
      && k < |r| && r[k] == listing[i]
      && (TooOld(listing[i], now) ==>
            && Retained(listing[..i + 1], now) + listing[i + 1..] == r[..k] + r[k + 1..]
            && |Retained(listing[..i + 1], now)| == k
            && Expired(listing[..i + 1], now) == Expired(listing[..i], now) + [listing[i]])
      && (!TooOld(listing[i], now) ==>
            && Retained(listing[..i + 1], now) + listing[i + 1..] == r
            && |Retained(listing[..i + 1], now)| == k + 1
            && Expired(listing[..i + 1], now) == Expired(listing[..i], now))
  {
    SweepStep(listing, i, now);
    var retained := Retained(listing[..i], now);
    assert listing[i..][1..] == listing[i + 1..];
    if TooOld(listing[i], now) {
      DropAt(retained, listing[i..]);
    } else {
      KeepAt(retained, listing[i..]);
    }
  }

  class MediaDirectory {
    /** The entries the recursive glob of the directory lists, in listing order. */
    var entries: seq<Entry>

    constructor (listing: seq<Entry>)
      ensures entries == listing
    {
      entries := listing;
    }

    /** `file_path.unlink()`: the entry at index `k` leaves the directory. */
    method Unlink(k: nat)
      requires k < |entries|
      modifies this
      ensures entries == old(entries[..k] + entries[k + 1..])
    {
      entries := entries[..k] + entries[k + 1..];
    }

    /** One step of the sweep: the entry at index `k` is unlinked if it is too old. */
    method Visit(k: nat, now: int) returns (gone: bool)
      requires k < |entries|
      modifies this
      ensures gone == TooOld(old(entries[k]), now)
      ensures gone ==> entries == old(entries[..k] + entries[k + 1..])
      ensures !gone ==> entries == old(entries)
    {
      gone := TooOld(entries[k], now);
      if gone {
        Unlink(k);
      }
    }

    /**
      One pass of the sweep at time `now`: unlink every entry that is too
      old. Answers the entries deleted (the ones the sweep logs).
     */
    method Sweep(now: int) returns (deleted: seq<Entry>)
      modifies this
      ensures entries == Retained(old(entries), now)
      ensures deleted == Expired(old(entries), now)
    {
      var listing := entries;
      deleted := [];
      var kept := 0;
      var i := 0;
      while i < |listing|
        invariant 0 <= i <= |listing|
        invariant kept == |Retained(listing[..i], now)|
        invariant entries == Retained(listing[..i], now) + listing[i..]
        invariant deleted == Expired(listing[..i], now)
      {
        var file := listing[i];
        SweepLoopStep(listing, i, now);
        var gone := Visit(kept, now);
        if gone {
          deleted := deleted + [file];
        } else {
          kept := kept + 1;
        }
        i := i + 1;
      }
      assert listing[..i] == listing;
    }
  }

  /** The sweep splits the listing: every entry is either deleted or left, and none is both or lost. */
  lemma {:induction false} SweepPartitions(listing: seq<Entry>, now: int)
    ensures multiset(Expired(listing, now)) + multiset(Retained(listing, now)) == multiset(listing)
  {
    if listing != [] {
      var init, e := listing[..|listing| - 1], listing[|listing| - 1];
      SweepPartitions(init, now);
      LastLandsOnOneSide(listing, now);
      assert listing == init + [e];
      SplitSnoc(Expired(init, now), Retained(init, now), init, e, Expired(listing, now), Retained(listing, now), listing);
    }
  }

  /** The last entry of a listing lands on exactly one side of the sweep. */
  lemma LastLandsOnOneSide(listing: seq<Entry>, now: int)
    requires listing != []
    ensures var init, e := listing[..|listing| - 1], listing[|listing| - 1];
      || (Expired(listing, now) == Expired(init, now) + [e] && Retained(listing, now) == Retained(init, now))
      || (Expired(listing, now) == Expired(init, now) && Retained(listing, now) == Retained(init, now) + [e])
  {
    var init, e := listing[..|listing| - 1], listing[|listing| - 1];
    if TooOld(e, now) {
      assert Retained(listing, now) == Retained(init, now) + [];
    } else {
      assert Expired(listing, now) == Expired(init, now) + [];
    }
  }

  /** Adding an entry to either side of a split of `init` splits `init` extended by it. */
  lemma SplitSnoc(left: seq<Entry>, right: seq<Entry>, init: seq<Entry>, e: Entry,
                  left': seq<Entry>, right': seq<Entry>, whole: seq<Entry>)
    requires multiset(left) + multiset(right) == multiset(init)
    requires whole == init + [e]
    requires (left' == left + [e] && right' == right) || (left' == left && right' == right + [e])
    ensures multiset(left') + multiset(right') == multiset(whole)
  {
  }

  /** An entry is deleted if and only if it is listed and too old. */
  lemma {:induction false} ExpiredMembers(listing: seq<Entry>, now: int)
    ensures forall e :: e in Expired(listing, now) <==> e in listing && TooOld(e, now)
    ensures forall e :: e in Retained(listing, now) <==> e in listing && !TooOld(e, now)
  {
    if listing != [] {
      var init := listing[..|listing| - 1];
      ExpiredMembers(init, now);
      assert listing == init + [listing[|listing| - 1]];
    }
  }

  /** An entry modified in the future, or less than two days ago, is never deleted. */
  lemma RecentEntriesKept(listing: seq<Entry>, now: int, e: Entry)
    requires e in listing && now - e.mtime < 2 * SecondsPerDay
    ensures e !in Expired(listing, now) && e in Retained(listing, now)
  {
    ExpiredMembers(listing, now);
  }

  /** A second sweep at the same time deletes nothing. */
  lemma {:induction false} SweepIdempotent(listing: seq<Entry>, now: int)
    ensures Expired(Retained(listing, now), now) == []
    ensures Retained(Retained(listing, now), now) == Retained(listing, now)
  {
    if listing != [] {
      var init := listing[..|listing| - 1];
      var e := listing[|listing| - 1];
      SweepIdempotent(init, now);
      if TooOld(e, now) {
        assert Retained(listing, now) == Retained(init, now) + [];
        assert Retained(init, now) + [] == Retained(init, now);
      } else {
        var r := Retained(init, now) + [e];
        assert Retained(listing, now) == r;
        assert r[..|r| - 1] == Retained(init, now) && r[|r| - 1] == e;
        assert Expired(r, now) == Expired(Retained(init, now), now) + [];
        assert Retained(r, now) == Retained(Retained(init, now), now) + [e];
      }
    }
  }

  /** What a sweep deletes at one time, a sweep at any later time deletes too. */
  lemma ExpiryIsMonotone(listing: seq<Entry>, now: int, later: int)
    requires now <= later
    ensures forall e :: e in Expired(listing, now) ==> e in Expired(listing, later)
  {
    ExpiredMembers(listing, now);
    ExpiredMembers(listing, later);
    forall e | e in Expired(listing, now) ensures e in Expired(listing, later) {
    }
  }
}
