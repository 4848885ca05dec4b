/**
  Progress and history persistence (src/utils/quizStorage.ts). The browser's
  localStorage is modelled as an abstract map from keys to stored values;
  JSON encoding is not modelled. Reading (`getItem`), writing (`setItem`) and
  removing (`removeItem`) fail independently: a store that is not `readable`
  throws on every read, one that is not `writable` on every write, and one
  that is not `removable` on every removal. A full quota is `readable`,
  `removable` and not `writable`. The module catches those errors, so a
  failed save or clear changes nothing and a failed load yields the empty
  answer.
*/
module QuizStorage {
  import opened Wrappers
  import opened QuizTypes

  const StorageKey := "servicenow_quiz_progress"
  const StatsKey := "servicenow_quiz_stats"

  /** How many quiz results the history keeps. */
  const MaxHistory: nat := 50

  /** A history entry: the statistics with the time they were recorded. */
  datatype HistoryEntry = HistoryEntry(stats: QuizStats, timestamp: int)

  /** A stored value: one of the two records this module writes, or text that
      does not parse (or parses to the empty string). Other stored values are
      not modelled. */
  datatype Stored =
    | ProgressRecord(progress: QuizProgress)
    | HistoryRecord(history: seq<HistoryEntry>)
    | Unreadable

  /** `loadQuizProgress` on the given entries: null when nothing is stored, when
      the stored text does not parse, or when the store throws. */
  function ReadProgress(entries: map<string, Stored>, readable: bool): (r: Option<QuizProgress>)
    ensures r.Some? <==> readable && StorageKey in entries && entries[StorageKey].ProgressRecord?
  {
    if readable && StorageKey in entries && entries[StorageKey].ProgressRecord?
    then Some(entries[StorageKey].progress)
    else None
  }

  /** `loadQuizStats` on the given entries: [] when nothing is stored, when the
      stored text does not parse, or when the store throws. */
  function ReadHistory(entries: map<string, Stored>, readable: bool): seq<HistoryEntry> {
    if readable && StatsKey in entries && entries[StatsKey].HistoryRecord?
    then entries[StatsKey].history
    else []
  }

  /** The history after `splice(0, length - 50)`: its last MaxHistory entries. */
  function CapHistory(h: seq<HistoryEntry>): (r: seq<HistoryEntry>)
    ensures |r| == if |h| > MaxHistory then MaxHistory else |h|
    ensures r == h[|h| - |r|..]
  {
    if |h| > MaxHistory then h[|h| - MaxHistory..] else h
  }

  /** The entries after `addQuizStats(stats)` at time `now`: the history as
      read (empty when the read throws), the new entry appended, capped and
      written back if the write succeeds. */
  function AddedStats(entries: map<string, Stored>, readable: bool, writable: bool, stats: QuizStats, now: int): map<string, Stored>
  {
    if writable
    then entries[StatsKey := HistoryRecord(CapHistory(ReadHistory(entries, readable) + [HistoryEntry(stats, now)]))]
    else entries
  }

  /** A stored progress record holds a session the page can render. */
  ghost predicate ProgressWellFormed(entries: map<string, Stored>) {
    StorageKey in entries && entries[StorageKey].ProgressRecord? ==>
      WellFormedSession(entries[StorageKey].progress.session)
  }

  class Store {
    var entries: map<string, Stored>
    /** Whether `getItem` succeeds. */
    const readable: bool
    /** Whether `setItem` succeeds. */
    const writable: bool
    /** Whether `removeItem` succeeds. */
    const removable: bool

    ghost predicate Valid()
      reads this
    {
      ProgressWellFormed(entries)
    }

    constructor (initial: map<string, Stored>, readable: bool, writable: bool, removable: bool)
      requires ProgressWellFormed(initial)
      ensures Valid()
      ensures entries == initial
      ensures this.readable == readable && this.writable == writable && this.removable == removable
    {
      entries := initial;
      this.readable := readable;
      this.writable := writable;
      this.removable := removable;
    }

    /** `saveQuizProgress`: overwrites the progress record; errors are swallowed. */
    method SaveQuizProgress(progress: QuizProgress)
      requires Valid() && WellFormedSession(progress.session)
      modifies this
      ensures Valid()
      ensures entries == SavedEntries(old(entries), writable, progress)
    {
      if writable {
        entries := entries[StorageKey := ProgressRecord(progress)];
      }
    }

    /** `loadQuizProgress`. */
    method LoadQuizProgress() returns (r: Option<QuizProgress>)
      requires Valid()
      ensures r == ReadProgress(entries, readable)
      ensures r.Some? ==> WellFormedSession(r.value.session)
    {
      r := ReadProgress(entries, readable);
    }

    /** `clearQuizProgress`: removes the progress record; errors are swallowed. */
    method ClearQuizProgress()
      requires Valid()
      modifies this
      ensures Valid()
      ensures entries == if removable then old(entries) - {StorageKey} else old(entries)
    {
      if removable {
        entries := entries - {StorageKey};
      }
    }

    /** `saveQuizStats`: overwrites the history; errors are swallowed. */
    method SaveQuizStats(history: seq<HistoryEntry>)
      requires Valid()
      modifies this
      ensures Valid()
      ensures entries == if writable then old(entries)[StatsKey := HistoryRecord(history)] else old(entries)
    {
      if writable {
        entries := entries[StatsKey := HistoryRecord(history)];
      }
    }

    /** `loadQuizStats`. */
    method LoadQuizStats() returns (history: seq<HistoryEntry>)
      ensures history == ReadHistory(entries, readable)
    {
      history := ReadHistory(entries, readable);
    }

    /** `addQuizStats`: appends the stamped statistics and keeps the last 50. */
    method AddQuizStats(stats: QuizStats, now: int)
      requires Valid()
      modifies this
      ensures Valid()
      ensures entries == AddedStats(old(entries), readable, writable, stats, now)
    {
      var existing := LoadQuizStats();
      var updated := existing + [HistoryEntry(stats, now)];
      if |updated| > MaxHistory {
        updated := updated[|updated| - MaxHistory..];
      }
      SaveQuizStats(updated);
    }
  }

  /** The stored map after `saveQuizProgress`. */
  function SavedEntries(entries: map<string, Stored>, writable: bool, progress: QuizProgress): (r: map<string, Stored>)
    ensures writable ==> ReadProgress(r, true) == Some(progress)
    ensures !writable ==> r == entries
  {
    if writable then entries[StorageKey := ProgressRecord(progress)] else entries
  }

  /** Loading after a save gives back the saved progress. */
  lemma LoadAfterSave(entries: map<string, Stored>, progress: QuizProgress)
    ensures ReadProgress(entries[StorageKey := ProgressRecord(progress)], true) == Some(progress)
  {
  }

  /** Loading after a clear, or with nothing stored, gives null. */
  lemma LoadAfterClear(entries: map<string, Stored>, readable: bool)
    ensures ReadProgress(entries - {StorageKey}, readable) == None
    ensures ReadProgress(map[], readable) == None
  {
  }

  /** Saving the progress leaves the history alone. */
  lemma SaveKeepsHistory(entries: map<string, Stored>, readable: bool, progress: QuizProgress)
    ensures ReadHistory(entries[StorageKey := ProgressRecord(progress)], readable) == ReadHistory(entries, readable)
  {
    KeysDistinct();
  }

  /** Clearing the progress leaves the history alone. */
  lemma ClearKeepsHistory(entries: map<string, Stored>, readable: bool)
    ensures ReadHistory(entries - {StorageKey}, readable) == ReadHistory(entries, readable)
  {
    KeysDistinct();
  }

  /** Recording statistics leaves the progress alone. */
  lemma AddedStatsKeepsProgress(entries: map<string, Stored>, readable: bool, writable: bool, stats: QuizStats, now: int)
    ensures ReadProgress(AddedStats(entries, readable, writable, stats, now), readable) == ReadProgress(entries, readable)
  {
    KeysDistinct();
  }

  /** The progress key and the history key differ, so writing one leaves the other alone. */
  lemma KeysDistinct()
    ensures StorageKey != StatsKey
  {
    assert |StorageKey| == 24 && |StatsKey| == 21;
  }

  /** When every read throws, nothing can be read back. */
  lemma UnreadableStoreReadsEmpty(entries: map<string, Stored>)
    ensures ReadProgress(entries, false) == None
    ensures ReadHistory(entries, false) == []
  {
  }

  /** When every write throws, saving and adding change nothing; when removals
      throw too, neither does completing a quiz. */
  lemma UnwritableStoreKeepsEntries(entries: map<string, Stored>, readable: bool, progress: QuizProgress, stats: QuizStats, now: int)
    ensures SavedEntries(entries, false, progress) == entries
    ensures AddedStats(entries, readable, false, stats, now) == entries
    ensures CompletedEntries(entries, readable, false, false, stats, now) == entries
  {
  }

  /** With a full quota (writes throw, reads and removals work), completing a
      quiz records no statistics but still removes the saved progress. */
  lemma FullQuotaCompletion(entries: map<string, Stored>, stats: QuizStats, now: int)
    ensures CompletedEntries(entries, true, false, true, stats, now) == entries - {StorageKey}
    ensures ReadHistory(CompletedEntries(entries, true, false, true, stats, now), true) == ReadHistory(entries, true)
    ensures ReadProgress(CompletedEntries(entries, true, false, true, stats, now), true) == None
  {
    ClearKeepsHistory(entries, true);
  }

  /** When reads throw but writes succeed, `addQuizStats` sees an empty
      history and overwrites the stored one with the new entry alone. */
  lemma UnreadableAddReplacesHistory(entries: map<string, Stored>, stats: QuizStats, now: int)
    ensures AddedStats(entries, false, true, stats, now)[StatsKey] == HistoryRecord([HistoryEntry(stats, now)])
    ensures ReadHistory(AddedStats(entries, false, true, stats, now), true) == [HistoryEntry(stats, now)]
  {
    assert ReadHistory(entries, false) + [HistoryEntry(stats, now)] == [HistoryEntry(stats, now)];
  }

  /** After `addQuizStats` the history holds at most 50 entries and ends with the new one. */
  lemma AddedStatsBoundedAndNewestLast(entries: map<string, Stored>, stats: QuizStats, now: int)
    ensures var h := ReadHistory(AddedStats(entries, true, true, stats, now), true);
            1 <= |h| <= MaxHistory && h[|h| - 1] == HistoryEntry(stats, now)
  {
  }

  /** A history shorter than 50 is kept whole, as a prefix of the new one. */
  lemma AddedStatsKeepsShortHistory(entries: map<string, Stored>, stats: QuizStats, now: int)
    requires |ReadHistory(entries, true)| < MaxHistory
    ensures ReadHistory(AddedStats(entries, true, true, stats, now), true)
            == ReadHistory(entries, true) + [HistoryEntry(stats, now)]
  {
  }

  /** On overflow the oldest entries go first: the result is the old history
      without its first |old| - 49 entries, followed by the new entry. */
  lemma AddedStatsEvictsOldest(entries: map<string, Stored>, stats: QuizStats, now: int)
    requires |ReadHistory(entries, true)| >= MaxHistory
    ensures var before := ReadHistory(entries, true);
            ReadHistory(AddedStats(entries, true, true, stats, now), true)
            == before[|before| - (MaxHistory - 1)..] + [HistoryEntry(stats, now)]
  {
    var h := ReadHistory(entries, true) + [HistoryEntry(stats, now)];
    assert h[|h| - MaxHistory..] == ReadHistory(entries, true)[|h| - MaxHistory..] + [HistoryEntry(stats, now)];
  }

  /** Two results added to a full history of 50: the first of them sits at
      index 48 and the second at index 49, after the 48 newest old entries. */
  lemma {:induction false} TwoAddsToFullHistory(entries: map<string, Stored>, s1: QuizStats, t1: int, s2: QuizStats, t2: int)
    requires |ReadHistory(entries, true)| == MaxHistory
    ensures var once := AddedStats(entries, true, true, s1, t1);
            var h := ReadHistory(AddedStats(once, true, true, s2, t2), true);
            && |h| == MaxHistory
            && h[..48] == ReadHistory(entries, true)[2..]
            && h[48] == HistoryEntry(s1, t1)
            && h[49] == HistoryEntry(s2, t2)
  {
    var once := AddedStats(entries, true, true, s1, t1);
    AddedStatsEvictsOldest(entries, s1, t1);
    AddedStatsEvictsOldest(once, s2, t2);
  }

  /** The stored map after the page's completion step, `addQuizStats`
      followed by `clearQuizProgress` (src/pages/Index.tsx). */
  function CompletedEntries(entries: map<string, Stored>, readable: bool, writable: bool, removable: bool, stats: QuizStats, now: int): map<string, Stored>
  {
    var added := AddedStats(entries, readable, writable, stats, now);
    if removable then added - {StorageKey} else added
  }

  /** Completing a quiz on a store whose removals work leaves no saved
      progress behind, whether or not the statistics could be written. */
  lemma CompletionClearsProgress(entries: map<string, Stored>, readable: bool, writable: bool, stats: QuizStats, now: int)
    ensures ReadProgress(CompletedEntries(entries, readable, writable, true, stats, now), true) == None
  {
    LoadAfterClear(AddedStats(entries, readable, writable, stats, now), true);
  }

  /** The history after completing a quiz is the capped old history plus the new entry. */
  lemma CompletedHistory(entries: map<string, Stored>, stats: QuizStats, now: int)
    ensures ReadHistory(CompletedEntries(entries, true, true, true, stats, now), true)
            == CapHistory(ReadHistory(entries, true) + [HistoryEntry(stats, now)])
  {
    ClearKeepsHistory(AddedStats(entries, true, true, stats, now), true);
  }

  /** Completing a quiz leaves a history of at most 50 entries that ends
      with the new statistics. */
  lemma CompletionRecordsStats(entries: map<string, Stored>, stats: QuizStats, now: int)
    ensures var h := ReadHistory(CompletedEntries(entries, true, true, true, stats, now), true);
            1 <= |h| <= MaxHistory && h[|h| - 1] == HistoryEntry(stats, now)
  {
    CompletedHistory(entries, stats, now);
    var full := ReadHistory(entries, true) + [HistoryEntry(stats, now)];
    var h := CapHistory(full);
    assert h[|h| - 1] == full[|full| - 1];
  }
}
