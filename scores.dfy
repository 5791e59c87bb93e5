/** Score stores and the leaderboard (game.cpp loadHighestScores, savePersonalBest,
    saveSessionBestScore, loadLeaderboard, saveToLeaderboard).

    A score file is the sequence of (name, score) pairs it holds. A std::map<string, int>
    is modelled as an association list with one entry per name: Find and Lookup read
    it, Put is `map[name] = score`, and PutMax is the "insert or raise" step used by the
    loaders and by the leaderboard update. */
module Scores {

  import opened Types

  /** No two entries share a name. */
  predicate UniqueNames(s: seq<ScoreEntry>)
  {
    forall i, j | 0 <= i < j < |s| :: s[i].name != s[j].name
  }

  /** Ordered as std::sort leaves a range under ScoreEntry::operator<: no entry ranks
      before an entry placed ahead of it, so scores do not increase. */
  predicate SortedByScore(s: seq<ScoreEntry>)
  {
    forall i, j | 0 <= i < j < |s| :: !RanksBefore(s[j], s[i])
  }

  /** The index of the first entry named `name`. */
  function Find(s: seq<ScoreEntry>, name: string): (r: Option<nat>)
    ensures r.Some? ==> r.value < |s| && s[r.value].name == name
    ensures r.Some? ==> forall j | 0 <= j < r.value :: s[j].name != name
    ensures r.None? <==> forall j | 0 <= j < |s| :: s[j].name != name
  {
    if s == [] then None
    else if s[0].name == name then Some(0)
    else match Find(s[1..], name)
      case Some(i) => Some(i + 1)
      case None => None
  }

  /** The score stored under `name`, as `map.find(name)` gives it. */
  function Lookup(s: seq<ScoreEntry>, name: string): Option<int>
  {
    match Find(s, name)
    case Some(i) => Some(s[i].score)
    case None => None
  }

  /** `map[name] = score`: overwrite the entry for the name, or add one. */
  function Put(s: seq<ScoreEntry>, e: ScoreEntry): (r: seq<ScoreEntry>)
    ensures UniqueNames(s) ==> UniqueNames(r)
  {
    match Find(s, e.name)
    case Some(i) => s[i := e]
    case None => s + [e]
  }

  /** Add the entry for a new name, or raise the existing entry when the new score is
      strictly higher: the merge step of the loaders, and saveToLeaderboard's update. */
  function PutMax(s: seq<ScoreEntry>, e: ScoreEntry): (r: seq<ScoreEntry>)
    ensures UniqueNames(s) ==> UniqueNames(r)
  {
    match Find(s, e.name)
    case Some(i) => if e.score > s[i].score then s[i := e] else s
    case None => s + [e]
  }

  /** The score a name holds after `score` is merged into `previous` keeping the maximum. */
  function BestWith(previous: Option<int>, score: int): int
  {
    match previous
    case Some(v) => Max(v, score)
    case None => score
  }

  /** Two lists with the same names at the same places find every name at the same place. */
  lemma FindDependsOnNamesOnly(s: seq<ScoreEntry>, t: seq<ScoreEntry>, name: string)
    requires |s| == |t|
    requires forall i | 0 <= i < |s| :: s[i].name == t[i].name
    ensures Find(s, name) == Find(t, name)
  {
  }

  /** Appending an entry leaves the first match among the old entries where it was. */
  lemma {:induction false} FindAppend(s: seq<ScoreEntry>, e: ScoreEntry, name: string)
    ensures Find(s + [e], name) == match Find(s, name)
      case Some(i) => Some(i)
      case None => if e.name == name then Some(|s|) else None
    decreases |s|
  {
    if s != [] && s[0].name != name {
      assert (s + [e])[1..] == s[1..] + [e];
      FindAppend(s[1..], e, name);
    }
  }

  lemma {:induction false} LookupPut(s: seq<ScoreEntry>, e: ScoreEntry, name: string)
    ensures Lookup(Put(s, e), name) == if name == e.name then Some(e.score) else Lookup(s, name)
  {
    var r := Put(s, e);
    match Find(s, e.name)
    case Some(i) =>
      FindDependsOnNamesOnly(s, r, name);
    case None =>
      FindAppend(s, e, name);
  }

  lemma {:induction false} LookupPutMax(s: seq<ScoreEntry>, e: ScoreEntry, name: string)
    ensures Lookup(PutMax(s, e), name) == if name == e.name then Some(BestWith(Lookup(s, name), e.score)) else Lookup(s, name)
  {
    match Find(s, e.name)
    case Some(i) =>
      if e.score > s[i].score {
        assert PutMax(s, e) == Put(s, e);
        LookupPut(s, e, name);
      }
    case None =>
      assert PutMax(s, e) == Put(s, e);
      LookupPut(s, e, name);
  }

  /** In a list with unique names, membership and lookup say the same thing. */
  lemma LookupMeansMember(s: seq<ScoreEntry>, e: ScoreEntry)
    requires UniqueNames(s)
    ensures e in s <==> Lookup(s, e.name) == Some(e.score)
  {
    var f := Find(s, e.name);
    if e in s {
      var k :| 0 <= k < |s| && s[k] == e;
      assert f.Some? && f.value == k;
    }
  }

  /** `v` is the highest score `pairs` records for `name`. */
  ghost predicate IsBestScore(pairs: seq<ScoreEntry>, name: string, v: int)
  {
    && (exists i | 0 <= i < |pairs| :: pairs[i] == ScoreEntry(name, v))
    && (forall i | 0 <= i < |pairs| && pairs[i].name == name :: pairs[i].score <= v)
  }

  /** `v` is the last score `pairs` records for `name`. */
  ghost predicate IsLastScore(pairs: seq<ScoreEntry>, name: string, v: int)
  {
    exists i | 0 <= i < |pairs| :: pairs[i] == ScoreEntry(name, v) && forall j | i < j < |pairs| :: pairs[j].name != name
  }

  /** The map a loader builds when it keeps the maximum per name (loadLeaderboard,
      saveSessionBestScore). */
  function MaxTable(pairs: seq<ScoreEntry>): (table: seq<ScoreEntry>)
    ensures UniqueNames(table)
    decreases |pairs|
  {
    if pairs == [] then [] else PutMax(MaxTable(pairs[..|pairs| - 1]), pairs[|pairs| - 1])
  }

  /** The map savePersonalBest builds: every pair overwrites, so the last one per name wins. */
  function LastTable(pairs: seq<ScoreEntry>): (table: seq<ScoreEntry>)
    ensures UniqueNames(table)
    decreases |pairs|
  {
    if pairs == [] then [] else Put(LastTable(pairs[..|pairs| - 1]), pairs[|pairs| - 1])
  }

  /** Appending one pair to `init` moves its best-score facts for `name` along. */
  lemma BestScoreStep(init: seq<ScoreEntry>, last: ScoreEntry, name: string, prev: Option<int>)
    requires prev.None? <==> forall i | 0 <= i < |init| :: init[i].name != name
    requires prev.Some? ==> IsBestScore(init, name, prev.value)
    ensures var pairs, now := init + [last], if name == last.name then Some(BestWith(prev, last.score)) else prev;
      && (now.None? <==> forall i | 0 <= i < |pairs| :: pairs[i].name != name)
      && (now.Some? ==> IsBestScore(pairs, name, now.value))
  {
    var pairs, n := init + [last], |init|;
    assert forall i | 0 <= i < n :: pairs[i] == init[i];
    if name == last.name {
      if prev.Some? && prev.value >= last.score {
        var i :| 0 <= i < n && init[i] == ScoreEntry(name, prev.value);
        assert pairs[i] == ScoreEntry(name, prev.value);
      } else {
        assert pairs[n] == ScoreEntry(name, last.score);
      }
    } else if prev.Some? {
      var i :| 0 <= i < n && init[i] == ScoreEntry(name, prev.value);
      assert pairs[i] == ScoreEntry(name, prev.value);
    }
  }

  /** The max-merged table holds a name exactly when the file does, under its best score. */
  lemma {:induction false} MaxTableLookup(pairs: seq<ScoreEntry>, name: string)
    ensures Lookup(MaxTable(pairs), name).None? <==> forall i | 0 <= i < |pairs| :: pairs[i].name != name
    ensures Lookup(MaxTable(pairs), name).Some? ==> IsBestScore(pairs, name, Lookup(MaxTable(pairs), name).value)
    decreases |pairs|
  {
    if pairs != [] {
      var n := |pairs| - 1;
      MaxTableLookup(pairs[..n], name);
      LookupPutMax(MaxTable(pairs[..n]), pairs[n], name);
      BestScoreStep(pairs[..n], pairs[n], name, Lookup(MaxTable(pairs[..n]), name));
      assert pairs == pairs[..n] + [pairs[n]];
    }
  }

  /** Appending one pair to `init` moves its last-score facts for `name` along. */
  lemma LastScoreStep(init: seq<ScoreEntry>, last: ScoreEntry, name: string, prev: Option<int>)
    requires prev.None? <==> forall i | 0 <= i < |init| :: init[i].name != name
    requires prev.Some? ==> IsLastScore(init, name, prev.value)
    ensures var pairs, now := init + [last], if name == last.name then Some(last.score) else prev;
      && (now.None? <==> forall i | 0 <= i < |pairs| :: pairs[i].name != name)
      && (now.Some? ==> IsLastScore(pairs, name, now.value))
  {
    var pairs, n := init + [last], |init|;
    assert forall i | 0 <= i < n :: pairs[i] == init[i];
    if name == last.name {
      assert pairs[n] == ScoreEntry(name, last.score);
    } else if prev.Some? {
      var i :| 0 <= i < n && init[i] == ScoreEntry(name, prev.value) && forall j | i < j < n :: init[j].name != name;
      assert pairs[i] == ScoreEntry(name, prev.value) && forall j | i < j < |pairs| :: pairs[j].name != name;
    }
  }

  /** The last-wins table holds a name exactly when the file does, under its last score. */
  lemma {:induction false} LastTableLookup(pairs: seq<ScoreEntry>, name: string)
    ensures Lookup(LastTable(pairs), name).None? <==> forall i | 0 <= i < |pairs| :: pairs[i].name != name
    ensures Lookup(LastTable(pairs), name).Some? ==> IsLastScore(pairs, name, Lookup(LastTable(pairs), name).value)
    decreases |pairs|
  {
    if pairs != [] {
      var n := |pairs| - 1;
      LastTableLookup(pairs[..n], name);
      LookupPut(LastTable(pairs[..n]), pairs[n], name);
      LastScoreStep(pairs[..n], pairs[n], name, Lookup(LastTable(pairs[..n]), name));
      assert pairs == pairs[..n] + [pairs[n]];
    }
  }

  /** In a list with one entry per name, the last entry's name is new to the entries
      before it, and those still have one entry per name. */
  lemma UniqueLast(s: seq<ScoreEntry>)
    requires UniqueNames(s) && s != []
    ensures UniqueNames(s[..|s| - 1])
    ensures PutMax(s[..|s| - 1], s[|s| - 1]) == s
  {
    var n := |s| - 1;
    assert forall j | 0 <= j < n :: s[..n][j] == s[j];
    assert Find(s[..n], s[n].name).None?;
    assert s[..n] + [s[n]] == s;
  }

  /** Merging a file that already has one entry per name gives the file back: a second
      saveSessionBestScore changes nothing. */
  lemma {:induction false} MaxTableOfUniqueIsIdentity(s: seq<ScoreEntry>)
    requires UniqueNames(s)
    ensures MaxTable(s) == s
    decreases |s|
  {
    if s != [] {
      var n := |s| - 1;
      UniqueLast(s);
      MaxTableOfUniqueIsIdentity(s[..n]);
      assert s == s[..n] + [s[n]];
    }
  }

  lemma SessionMergeIsIdempotent(pairs: seq<ScoreEntry>)
    ensures MaxTable(MaxTable(pairs)) == MaxTable(pairs)
  {
    MaxTableOfUniqueIsIdentity(MaxTable(pairs));
  }

  /** The std::map-filling loop of loadLeaderboard and saveSessionBestScore. */
  method MergeMax(pairs: seq<ScoreEntry>) returns (table: seq<ScoreEntry>)
    ensures table == MaxTable(pairs)
  {
    table := [];
    var i := 0;
    while i < |pairs|
      invariant 0 <= i <= |pairs|
      invariant table == MaxTable(pairs[..i])
    {
      assert pairs[..i + 1][..i] == pairs[..i];
      table := PutMax(table, pairs[i]);
      i := i + 1;
    }
    assert pairs[..i] == pairs;
  }

  /** The std::map-filling loop of savePersonalBest. */
  method MergeLast(pairs: seq<ScoreEntry>) returns (table: seq<ScoreEntry>)
    ensures table == LastTable(pairs)
  {
    table := [];
    var i := 0;
    while i < |pairs|
      invariant 0 <= i <= |pairs|
      invariant table == LastTable(pairs[..i])
    {
      assert pairs[..i + 1][..i] == pairs[..i];
      table := Put(table, pairs[i]);
      i := i + 1;
    }
    assert pairs[..i] == pairs;
  }

  /** Insertion of one entry into a list sorted by score. */
  function Insert(e: ScoreEntry, s: seq<ScoreEntry>): (r: seq<ScoreEntry>)
    requires SortedByScore(s)
    ensures SortedByScore(r)
    ensures multiset(r) == multiset(s) + multiset{e}
    ensures forall x | x in r :: x == e || x in s
  {
    if s == [] then [e]
    else if e.score >= s[0].score then
      SortedCons(e, s);
      [e] + s
    else
      SortedTail(s);
      var rest := Insert(e, s[1..]);
      assert s == [s[0]] + s[1..];
      SortedCons(s[0], rest);
      [s[0]] + rest
  }

  /** The head of a sorted list scores at least every entry after it, and the rest is sorted. */
  lemma SortedTail(s: seq<ScoreEntry>)
    requires SortedByScore(s) && s != []
    ensures SortedByScore(s[1..])
    ensures forall x | x in s[1..] :: x.score <= s[0].score
  {
    forall x | x in s[1..] ensures x.score <= s[0].score {
      var j :| 0 <= j < |s| - 1 && s[1..][j] == x;
      assert s[j + 1] == x;
    }
  }

  lemma SortedCons(h: ScoreEntry, t: seq<ScoreEntry>)
    requires SortedByScore(t)
    requires forall x | x in t :: x.score <= h.score
    ensures SortedByScore([h] + t)
  {
    var r := [h] + t;
    forall i, j | 0 <= i < j < |r| ensures !RanksBefore(r[j], r[i]) {
      assert r[j] == t[j - 1];
      if i > 0 {
        assert r[i] == t[i - 1];
      }
    }
  }

  /** One sort std::sort may produce: the entries of `s`, in non-increasing score order.
      Entries with equal scores may come out in any order, so callers rely only on
      these two promises. */
  function SortByScore(s: seq<ScoreEntry>): (r: seq<ScoreEntry>)
    ensures SortedByScore(r)
    ensures multiset(r) == multiset(s)
  {
    if s == [] then []
    else
      assert s == [s[0]] + s[1..];
      Insert(s[0], SortByScore(s[1..]))
  }

  /** `leaderboard.resize(MAX_LEADERBOARD_ENTRIES)` when it is longer. */
  function Truncated(s: seq<ScoreEntry>): seq<ScoreEntry>
  {
    if |s| > MaxLeaderboardEntries then s[..MaxLeaderboardEntries] else s
  }

  /** A list with unique names keeps them in any sub-multiset, so in any permutation,
      prefix or truncation. */
  lemma SubMultisetKeepsUniqueNames(s: seq<ScoreEntry>, t: seq<ScoreEntry>)
    requires UniqueNames(s)
    requires multiset(t) <= multiset(s)
    ensures UniqueNames(t)
  {
    forall i, j | 0 <= i < j < |t| ensures t[i].name != t[j].name {
      if t[i].name == t[j].name {
        assert t[i] in multiset(s) && t[j] in multiset(s);
        var a :| 0 <= a < |s| && s[a] == t[i];
        var b :| 0 <= b < |s| && s[b] == t[j];
        if a == b {
          assert t == t[..j] + t[j..];
          assert t[i] in t[..j] && t[i] in t[j..];
          assert multiset(t)[t[i]] >= 2;
          UniqueHasNoRepeats(s, t[i]);
        }
      }
    }
  }

  lemma {:induction false} UniqueHasNoRepeats(s: seq<ScoreEntry>, e: ScoreEntry)
    requires UniqueNames(s)
    ensures multiset(s)[e] <= 1
    decreases |s|
  {
    if s != [] {
      assert s == [s[0]] + s[1..];
      UniqueHasNoRepeats(s[1..], e);
      if s[0] == e {
        assert e !in s[1..];
      }
    }
  }

  /** Cutting a sorted board leaves a sorted head whose every score is at least any in the tail. */
  lemma SortedSplit(s: seq<ScoreEntry>, k: nat)
    requires SortedByScore(s) && k <= |s|
    ensures SortedByScore(s[..k])
    ensures forall e, f | e in s[..k] && f in s[k..] :: f.score <= e.score
  {
    forall e, f | e in s[..k] && f in s[k..] ensures f.score <= e.score {
      var a :| 0 <= a < k && s[a] == e;
      var b :| k <= b < |s| && s[b] == f;
    }
  }

  /** Cutting a sorted list to the first ten keeps it sorted and keeps the entries with
      the highest scores: nothing dropped outscores anything kept. */
  lemma TruncatedKeepsTop(s: seq<ScoreEntry>)
    requires SortedByScore(s)
    ensures var r := Truncated(s);
      && SortedByScore(r)
      && |r| == Min(|s|, MaxLeaderboardEntries)
      && multiset(r) <= multiset(s)
      && forall e, f | e in r && f in multiset(s) - multiset(r) :: f.score <= e.score
  {
    if |s| > MaxLeaderboardEntries {
      var k := MaxLeaderboardEntries;
      SortedSplit(s, k);
      assert s == s[..k] + s[k..];
      assert multiset(s) - multiset(s[..k]) == multiset(s[k..]);
    }
  }

  /** What saveToLeaderboard leaves in the leaderboard: nothing changes for a score of
      zero or less; otherwise the player's entry is added or raised, and the result is
      sorted by score and cut to the ten highest entries. */
  ghost predicate RecordedInLeaderboard(before: seq<ScoreEntry>, after: seq<ScoreEntry>, name: string, score: int)
  {
    if score <= 0 then after == before
    else
      exists sorted: seq<ScoreEntry> ::
        && SortedByScore(sorted)
        && multiset(sorted) == multiset(PutMax(before, ScoreEntry(name, score)))
        && after == Truncated(sorted)
  }

  /** The recorded board is sorted, as long as the updated board or ten entries,
      drawn from the updated board, and no entry cut off outscores an entry kept. */
  lemma RecordedKeepsTop(before: seq<ScoreEntry>, after: seq<ScoreEntry>, name: string, score: int)
    requires score > 0
    requires RecordedInLeaderboard(before, after, name, score)
    ensures var updated := PutMax(before, ScoreEntry(name, score));
      && SortedByScore(after)
      && |after| == Min(|updated|, MaxLeaderboardEntries)
      && multiset(after) <= multiset(updated)
      && forall e, f | e in after && f in multiset(updated) - multiset(after) :: f.score <= e.score
  {
    var updated := PutMax(before, ScoreEntry(name, score));
    var sorted :| SortedByScore(sorted) && multiset(sorted) == multiset(updated) && after == Truncated(sorted);
    TruncatedKeepsTop(sorted);
    assert |sorted| == |updated| by {
      assert |multiset(sorted)| == |multiset(updated)|;
    }
  }

  /** saveToLeaderboard's result on a board with one entry per name: still one entry
      per name, at most ten of them, every other player's entry taken unchanged from the
      old board, and the player's entry, if it survived the cut, holds the higher of the
      old and new score. When the board had room, the player is on it. */
  lemma RecordedLeaderboardFacts(before: seq<ScoreEntry>, after: seq<ScoreEntry>, name: string, score: int)
    requires UniqueNames(before)
    requires score > 0
    requires RecordedInLeaderboard(before, after, name, score)
    ensures UniqueNames(after) && SortedByScore(after) && |after| <= MaxLeaderboardEntries
    ensures forall e | e in after && e.name != name :: e in before
    ensures forall e | e in after && e.name == name :: e.score == BestWith(Lookup(before, name), score)
    ensures |before| < MaxLeaderboardEntries ==> ScoreEntry(name, BestWith(Lookup(before, name), score)) in after
  {
    var updated := PutMax(before, ScoreEntry(name, score));
    RecordedKeepsTop(before, after, name, score);
    SubMultisetKeepsUniqueNames(updated, after);
    forall e | e in after ensures e in updated {
      assert e in multiset(after);
    }
    forall e | e in after && e.name != name ensures e in before {
      LookupMeansMember(updated, e);
      LookupPutMax(before, ScoreEntry(name, score), e.name);
      LookupMeansMember(before, e);
    }
    forall e | e in after && e.name == name ensures e.score == BestWith(Lookup(before, name), score) {
      LookupMeansMember(updated, e);
      LookupPutMax(before, ScoreEntry(name, score), name);
    }
    if |before| < MaxLeaderboardEntries {
      var best := ScoreEntry(name, BestWith(Lookup(before, name), score));
      LookupPutMax(before, ScoreEntry(name, score), name);
      LookupMeansMember(updated, best);
      assert |updated| <= |before| + 1;
      assert multiset(after) == multiset(updated) by {
        var d := multiset(updated) - multiset(after);
        assert |multiset(after)| == |multiset(updated)|;
        assert multiset(updated) == multiset(after) + d;
      }
      assert best in multiset(after);
    }
  }

  /** saveToLeaderboard's search: the first entry under the entry's name is raised when
      the new score is higher and left alone otherwise; a name not on the board is
      appended. */
  method RaiseOrAdd(board: seq<ScoreEntry>, e: ScoreEntry) returns (r: seq<ScoreEntry>)
    ensures r == PutMax(board, e)
  {
    r := board;
    var i := 0;
    while i < |board|
      invariant 0 <= i <= |board|
      invariant forall k | 0 <= k < i :: board[k].name != e.name
    {
      if board[i].name == e.name {
        assert Find(board, e.name) == Some(i);
        if e.score > board[i].score {
          r := board[i := e];
        }
        return;
      }
      i := i + 1;
    }
    r := board + [e];
  }

  /** Sorting the updated board and cutting it to ten entries is what
      RecordedInLeaderboard allows. */
  lemma SortedTopTenIsRecorded(before: seq<ScoreEntry>, name: string, score: int)
    requires score > 0
    ensures RecordedInLeaderboard(before, Truncated(SortByScore(PutMax(before, ScoreEntry(name, score)))), name, score)
  {
    var sorted := SortByScore(PutMax(before, ScoreEntry(name, score)));
    assert SortedByScore(sorted);
  }

  /** What loadLeaderboard produces from a score file: one entry per name, holding that
      name's highest score, for every name in the file, in non-increasing score order. */
  lemma LoadedLeaderboardFacts(file: seq<ScoreEntry>, board: seq<ScoreEntry>)
    requires SortedByScore(board)
    requires multiset(board) == multiset(MaxTable(file))
    ensures UniqueNames(board)
    ensures forall e | e in board :: IsBestScore(file, e.name, e.score)
    ensures forall i | 0 <= i < |file| :: exists e | e in board :: e.name == file[i].name
  {
    var table := MaxTable(file);
    SubMultisetKeepsUniqueNames(table, board);
    forall e | e in board ensures IsBestScore(file, e.name, e.score) {
      assert e in multiset(table);
      LookupMeansMember(table, e);
      MaxTableLookup(file, e.name);
    }
    forall i | 0 <= i < |file| ensures exists e | e in board :: e.name == file[i].name {
      MaxTableLookup(file, file[i].name);
      var v := Lookup(table, file[i].name).value;
      LookupMeansMember(table, ScoreEntry(file[i].name, v));
      assert ScoreEntry(file[i].name, v) in multiset(board);
    }
  }

  /** What savePersonalBest does to the per-player store and the two bests: nothing
      unless the score beats the player's best; otherwise the store is rewritten with one
      entry per name, the player's entry set to the score, and both bests raised. */
  ghost predicate PersonalBestRecorded(
    store: seq<ScoreEntry>, best: int, overall: int, name: string, score: int,
    store': seq<ScoreEntry>, best': int, overall': int)
  {
    if score <= best then store' == store && best' == best && overall' == overall
    else store' == Put(LastTable(store), ScoreEntry(name, score)) && best' == score && overall' == Max(overall, score)
  }

  /** The rewritten store holds the player under the new score and every other name of
      the old store under the LAST score the old store gave it (not its highest). */
  lemma PersonalBestFacts(
    store: seq<ScoreEntry>, best: int, overall: int, name: string, score: int,
    store': seq<ScoreEntry>, best': int, overall': int, other: string)
    requires score > best
    requires PersonalBestRecorded(store, best, overall, name, score, store', best', overall')
    requires other != name
    ensures UniqueNames(store')
    ensures Lookup(store', name) == Some(score)
    ensures best' == score && overall' >= score && overall' >= overall
    ensures Lookup(store', other).None? <==> forall i | 0 <= i < |store| :: store[i].name != other
    ensures Lookup(store', other).Some? ==> IsLastScore(store, other, Lookup(store', other).value)
  {
    LookupPut(LastTable(store), ScoreEntry(name, score), name);
    LookupPut(LastTable(store), ScoreEntry(name, score), other);
    LastTableLookup(store, other);
  }

  /** Because savePersonalBest keeps the last entry per name, a store with a lower
      duplicate after a higher one loses the higher score of another player. */
  lemma PersonalBestRewriteKeepsLastDuplicate()
    ensures var store := [ScoreEntry("x", 20), ScoreEntry("x", 10)];
      Lookup(Put(LastTable(store), ScoreEntry("p", 5)), "x") == Some(10)
      && Lookup(MaxTable(store), "x") == Some(20)
  {
    var store := [ScoreEntry("x", 20), ScoreEntry("x", 10)];
    assert store[..1] == [ScoreEntry("x", 20)];
    assert store[..1][..0] == [];
  }

  /** What loadHighestScores computes, over all pairs of the store: the highest score,
      floored at 0. */
  ghost predicate IsHighestOverall(store: seq<ScoreEntry>, v: int)
  {
    && v >= 0
    && (forall i | 0 <= i < |store| :: store[i].score <= v)
    && (v == 0 || exists i | 0 <= i < |store| :: store[i].score == v)
  }

  /** What loadHighestScores computes for one player: that player's highest score,
      floored at 0. */
  ghost predicate IsHighestFor(store: seq<ScoreEntry>, name: string, v: int)
  {
    && v >= 0
    && (forall i | 0 <= i < |store| && store[i].name == name :: store[i].score <= v)
    && (v == 0 || exists i | 0 <= i < |store| :: store[i] == ScoreEntry(name, v))
  }

  /** Every entry of the max-merged table holds its name's best score in the store. */
  lemma TableEntryIsBest(store: seq<ScoreEntry>, k: nat)
    requires k < |MaxTable(store)|
    ensures IsBestScore(store, MaxTable(store)[k].name, MaxTable(store)[k].score)
  {
    var table := MaxTable(store);
    LookupMeansMember(table, table[k]);
    MaxTableLookup(store, table[k].name);
  }

  /** Every pair of the store is matched by the table entry for its name, with at least
      its score. */
  lemma TableCovers(store: seq<ScoreEntry>, i: nat) returns (k: nat)
    requires i < |store|
    ensures k < |MaxTable(store)|
    ensures MaxTable(store)[k].name == store[i].name && MaxTable(store)[k].score >= store[i].score
  {
    var table := MaxTable(store);
    MaxTableLookup(store, store[i].name);
    var w := Lookup(table, store[i].name).value;
    LookupMeansMember(table, ScoreEntry(store[i].name, w));
    k :| 0 <= k < |table| && table[k] == ScoreEntry(store[i].name, w);
  }

  /** saveSessionBestScore's rewrite does not change the overall highest score that
      loadHighestScores reads back. */
  lemma SessionMergeKeepsHighestOverall(store: seq<ScoreEntry>, v: int)
    ensures IsHighestOverall(store, v) <==> IsHighestOverall(MaxTable(store), v)
  {
    var table := MaxTable(store);
    if IsHighestOverall(store, v) {
      forall k | 0 <= k < |table| ensures table[k].score <= v {
        TableEntryIsBest(store, k);
      }
      if v != 0 {
        var i :| 0 <= i < |store| && store[i].score == v;
        var k := TableCovers(store, i);
        TableEntryIsBest(store, k);
      }
    }
    if IsHighestOverall(table, v) {
      forall i | 0 <= i < |store| ensures store[i].score <= v {
        var k := TableCovers(store, i);
      }
      if v != 0 {
        var k :| 0 <= k < |table| && table[k].score == v;
        TableEntryIsBest(store, k);
      }
    }
  }

  /** saveSessionBestScore's rewrite does not change the personal best that
      loadHighestScores reads back for any player. */
  lemma SessionMergeKeepsHighestFor(store: seq<ScoreEntry>, name: string, v: int)
    ensures IsHighestFor(store, name, v) <==> IsHighestFor(MaxTable(store), name, v)
  {
    var table := MaxTable(store);
    if IsHighestFor(store, name, v) {
      forall k | 0 <= k < |table| && table[k].name == name ensures table[k].score <= v {
        TableEntryIsBest(store, k);
      }
      if v != 0 {
        var i :| 0 <= i < |store| && store[i] == ScoreEntry(name, v);
        var k := TableCovers(store, i);
        TableEntryIsBest(store, k);
      }
    }
    if IsHighestFor(table, name, v) {
      forall i | 0 <= i < |store| && store[i].name == name ensures store[i].score <= v {
        var k := TableCovers(store, i);
      }
      if v != 0 {
        var k :| 0 <= k < |table| && table[k] == ScoreEntry(name, v);
        TableEntryIsBest(store, k);
      }
    }
  }
}
