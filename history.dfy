/** The password history: the bounded append of add_to_history
    (main.py:125-146), the recovery of load_history (main.py:109-118) and the
    masking of view_history (main.py:162). */
module History {
  import opened Entropy

  /** MAX_HISTORY (main.py:13) */
  const MaxHistory: nat := 10

  /** One record of the history file. The timestamp and the description are
      opaque strings supplied by the caller. */
  datatype Entry = Entry(
    password: string,
    description: string,
    createdAt: string,
    entropyEighths: nat,
    strength: Strength)

  /** What the history file holds: nothing, text that is not JSON, or a list
      of entries. */
  datatype StoredHistory = Absent | Corrupt | Saved(entries: seq<Entry>)

  /** load_history: a missing or corrupt file reads as the empty history. */
  function Load(file: StoredHistory): (h: seq<Entry>)
    ensures file.Saved? ==> h == file.entries
    ensures !file.Saved? ==> h == []
  {
    match file
    case Saved(entries) => entries
    case _ => []
  }

  /** The record that add_to_history appends (main.py:133-139) */
  function NewEntry(password: string, description: string, createdAt: string): (e: Entry)
    ensures e.password == password && e.description == description && e.createdAt == createdAt
    ensures e.entropyEighths == EntropyEighths(password)
    ensures e.strength == EstimateStrength(password)
  {
    Entry(password, description, createdAt, EntropyEighths(password), EstimateStrength(password))
  }

  function Min(a: nat, b: nat): nat
  {
    if a < b then a else b
  }

  /** main.py:141-143: a history longer than MAX_HISTORY keeps its last
      MAX_HISTORY entries. */
  function Truncate<T>(h: seq<T>): (r: seq<T>)
    ensures |r| == Min(|h|, MaxHistory)
    ensures r == h[|h| - |r|..]
  {
    if |h| > MaxHistory then h[|h| - MaxHistory..] else h
  }

  /** The append and truncation of add_to_history on the loaded list: one
      entry more, up to MAX_HISTORY, with the new one last. */
  function Appended<T>(h: seq<T>, e: T): (r: seq<T>)
    ensures |r| == Min(|h| + 1, MaxHistory)
  {
    Truncate(h + [e])
  }

  /** An append keeps the newest min(n + 1, MAX_HISTORY) entries of the list
      with `e` at its end: `e` is last, and only the oldest entries are
      dropped, the others keeping their order. */
  lemma AppendedNewest<T>(h: seq<T>, e: T)
    ensures var r := Appended(h, e);
      |r| == Min(|h| + 1, MaxHistory) && r == (h + [e])[|h| + 1 - |r|..] && r[|r| - 1] == e
  {
    var r := Appended(h, e);
    assert r == (h + [e])[|h| + 1 - |r|..];
    assert r[|r| - 1] == (h + [e])[|h|];
  }

  /** The file after add_to_history: an empty password leaves it as it was,
      otherwise it is rewritten with the appended and truncated history,
      which is one entry longer than the loaded one, up to MAX_HISTORY. */
  function AfterAdd(file: StoredHistory, password: string, description: string, createdAt: string): (r: StoredHistory)
    ensures password != [] ==> r.Saved? && |r.entries| == Min(|Load(file)| + 1, MaxHistory)
  {
    if password == [] then file
    else Saved(Appended(Load(file), NewEntry(password, description, createdAt)))
  }

  /** The history file, updated in place by add_to_history */
  class HistoryStore {
    var file: StoredHistory

    constructor(file: StoredHistory)
      ensures this.file == file
    {
      this.file := file;
    }

    /** add_to_history (main.py:125-146), with `createdAt` standing for the
        formatted clock reading. */
    method AddToHistory(password: string, description: string, createdAt: string)
      modifies this
      ensures file == AfterAdd(old(file), password, description, createdAt)
    {
      if password == [] {
        return;
      }
      var history := Load(file);
      var eighths := CalculateEntropy(password);
      history := history + [Entry(password, description, createdAt, eighths, Rating(eighths))];
      if |history| > MaxHistory {
        history := history[|history| - MaxHistory..];
      }
      file := Saved(history);
    }
  }

  /** An add with a non-empty password leaves at most MAX_HISTORY entries in
      the file, however long the loaded list was, and the new record is the
      last one. */
  lemma AddBounded(file: StoredHistory, password: string, description: string, createdAt: string)
    requires password != []
    ensures var h := Load(AfterAdd(file, password, description, createdAt));
      |h| <= MaxHistory && h[|h| - 1] == NewEntry(password, description, createdAt)
  {
  }

  /** An empty password leaves the file untouched, whatever it holds. */
  lemma AddEmptyPassword(file: StoredHistory, description: string, createdAt: string)
    ensures AfterAdd(file, "", description, createdAt) == file
  {
  }

  /** A corrupt file is treated like a missing one: the add starts a new
      history holding just the new record. */
  lemma AddToUnreadable(file: StoredHistory, password: string, description: string, createdAt: string)
    requires !file.Saved? && password != []
    ensures AfterAdd(file, password, description, createdAt) == Saved([NewEntry(password, description, createdAt)])
  {
  }

  /** Several appends in a row */
  function AppendAll<T>(h: seq<T>, es: seq<T>): seq<T>
    decreases |es|
  {
    if es == [] then h else AppendAll(Appended(h, es[0]), es[1..])
  }

  /** Truncating early changes nothing: cutting a list to its newest
      MAX_HISTORY entries before appending more and cutting again gives what
      a single cut at the end gives. */
  lemma TruncateTwice<T>(s: seq<T>, t: seq<T>)
    ensures Truncate(Truncate(s) + t) == Truncate(s + t)
  {
    if |s| > MaxHistory {
      var d := |s| - MaxHistory;
      var u := s[d..] + t;
      assert Truncate(s) == s[d..];
      SliceConcat(s, t, d);
      assert u == (s + t)[d..];
      if |t| == 0 {
        assert Truncate(u) == u;
        assert Truncate(s + t) == (s + t)[d..];
      } else {
        assert Truncate(u) == u[|t|..];
        SliceSlice(s + t, d, |t|);
        assert Truncate(s + t) == (s + t)[d + |t|..];
      }
    }
  }

  /** However many records are appended, the history is the newest
      min(n + k, MAX_HISTORY) records of all of them, in order, provided it
      started within the bound. */
  lemma {:induction false} AppendAllKeepsNewest<T>(h: seq<T>, es: seq<T>)
    requires |h| <= MaxHistory
    ensures AppendAll(h, es) == Truncate(h + es)
    decreases |es|
  {
    if es == [] {
      assert h + es == h;
    } else {
      var h' := Appended(h, es[0]);
      AppendAllKeepsNewest(h', es[1..]);
      TruncateTwice(h + [es[0]], es[1..]);
      assert h + [es[0]] + es[1..] == h + es by {
        assert es == [es[0]] + es[1..];
      }
    }
  }

  lemma SplitFirst<T>(h: seq<T>, es: seq<T>)
    requires es != []
    ensures h + [es[0]] + es[1..] == h + es
  {
    assert es == [es[0]] + es[1..];
  }

  lemma SliceConcat<T>(s: seq<T>, t: seq<T>, d: nat)
    requires d <= |s|
    ensures s[d..] + t == (s + t)[d..]
  {
  }

  lemma SliceConcatRight<T>(s: seq<T>, t: seq<T>, k: nat)
    requires k <= |t|
    ensures (s + t)[|s| + k..] == t[k..]
  {
  }

  lemma SliceSlice<T>(s: seq<T>, d: nat, k: nat)
    requires d + k <= |s|
    ensures s[d..][k..] == s[d + k..]
  {
  }

  /** From any loaded list, even one longer than MAX_HISTORY, one or more
      appends give the newest MAX_HISTORY records of all of them, in order:
      the first append already brings the list within the bound. */
  lemma AppendAllFromAny<T>(h: seq<T>, es: seq<T>)
    requires es != []
    ensures AppendAll(h, es) == Truncate(h + es)
  {
    var first, rest := h + [es[0]], es[1..];
    SplitFirst(h, es);
    calc {
      AppendAll(h, es);
      AppendAll(Truncate(first), rest);
      { AppendAllKeepsNewest(Truncate(first), rest); }
      Truncate(Truncate(first) + rest);
      { TruncateTwice(first, rest); }
      Truncate(first + rest);
    }
  }

  /** After MAX_HISTORY appends or more, the history is exactly the last
      MAX_HISTORY records appended, however long the loaded list was. */
  lemma AppendManyForgetsOld<T>(h: seq<T>, es: seq<T>)
    requires |es| >= MaxHistory
    ensures AppendAll(h, es) == es[|es| - MaxHistory..]
  {
    AppendAllFromAny(h, es);
    var all := h + es;
    assert Truncate(all) == all[|h| + (|es| - MaxHistory)..];
    SliceConcatRight(h, es, |es| - MaxHistory);
  }

  /** The arguments of one add_to_history call */
  datatype SaveRequest = SaveRequest(password: string, description: string, createdAt: string)

  /** `es` are the records that saving `rs` appends, one per request */
  predicate RecordsOf(rs: seq<SaveRequest>, es: seq<Entry>)
  {
    |es| == |rs| &&
    forall i :: 0 <= i < |rs| ==> es[i] == NewEntry(rs[i].password, rs[i].description, rs[i].createdAt)
  }

  /** The history file after add_to_history is called once per request, in order */
  function AddAll(file: StoredHistory, rs: seq<SaveRequest>): (r: StoredHistory)
    ensures rs != [] && rs[|rs| - 1].password != [] ==> r.Saved?
    decreases |rs|
  {
    if rs == [] then file
    else AddAll(AfterAdd(file, rs[0].password, rs[0].description, rs[0].createdAt), rs[1..])
  }

  /** Requests whose passwords are all empty leave the file as it was. */
  lemma {:induction false} AddAllEmptyKeepsFile(file: StoredHistory, rs: seq<SaveRequest>)
    requires forall i :: 0 <= i < |rs| ==> rs[i].password == []
    ensures AddAll(file, rs) == file
    decreases |rs|
  {
    if rs != [] {
      assert forall i :: 0 <= i < |rs| - 1 ==> rs[1..][i] == rs[i + 1];
      AddAllEmptyKeepsFile(file, rs[1..]);
    }
  }

  /** Saving one or more non-empty passwords, starting from any file (missing,
      corrupt, or holding a list of any length), leaves a saved history that
      is the successive appends of their records to the loaded list. */
  lemma {:induction false} AddAllIsAppendAll(file: StoredHistory, rs: seq<SaveRequest>, es: seq<Entry>)
    requires rs != [] && RecordsOf(rs, es)
    requires forall i :: 0 <= i < |rs| ==> rs[i].password != []
    ensures AddAll(file, rs) == Saved(AppendAll(Load(file), es))
    decreases |rs|
  {
    var first := AfterAdd(file, rs[0].password, rs[0].description, rs[0].createdAt);
    SaveOne(file, rs[0].password, rs[0].description, rs[0].createdAt);
    if |rs| > 1 {
      RecordsOfTail(rs, es);
      AddAllIsAppendAll(first, rs[1..], es[1..]);
    }
  }

  /** One add_to_history call with a non-empty password appends its record */
  lemma SaveOne(file: StoredHistory, password: string, description: string, createdAt: string)
    requires password != []
    ensures AfterAdd(file, password, description, createdAt)
      == Saved(Appended(Load(file), NewEntry(password, description, createdAt)))
  {
  }

  /** The records of the requests after the first */
  lemma RecordsOfTail(rs: seq<SaveRequest>, es: seq<Entry>)
    requires rs != [] && RecordsOf(rs, es)
    requires forall i :: 0 <= i < |rs| ==> rs[i].password != []
    ensures RecordsOf(rs[1..], es[1..])
    ensures forall i :: 0 <= i < |rs| - 1 ==> rs[1..][i].password != []
  {
    assert forall i :: 0 <= i < |rs| - 1 ==> rs[1..][i] == rs[i + 1] && es[1..][i] == es[i + 1];
  }

  /** Saving MAX_HISTORY + k non-empty passwords in a row leaves exactly the
      records of the last MAX_HISTORY of them, in the order they were saved,
      whatever the file held before. */
  lemma AddManyKeepsLast(file: StoredHistory, rs: seq<SaveRequest>, es: seq<Entry>)
    requires |rs| >= MaxHistory && RecordsOf(rs, es)
    requires forall i :: 0 <= i < |rs| ==> rs[i].password != []
    ensures AddAll(file, rs) == Saved(es[|es| - MaxHistory..])
  {
    AddAllIsAppendAll(file, rs, es);
    AppendManyForgetsOld(Load(file), es);
  }

  /** `"*" * count`: Python gives the empty string for a negative count. */
  function Stars(count: int): (r: string)
    ensures |r| == if count > 0 then count else 0
    ensures forall i :: 0 <= i < |r| ==> r[i] == '*'
    decreases if count > 0 then count else 0
  {
    if count <= 0 then "" else Stars(count - 1) + "*"
  }

  /** main.py:162: the first four characters followed by a star for every
      other character. */
  function Mask(password: string): (r: string)
    ensures |r| == |password|
    ensures forall i :: 0 <= i < |r| ==> r[i] == if i < 4 then password[i] else '*'
  {
    var shown := if |password| < 4 then |password| else 4;
    password[..shown] + Stars(|password| - 4)
  }

  /** Passwords of at most four characters are shown unchanged. */
  lemma MaskShort(password: string)
    requires |password| <= 4
    ensures Mask(password) == password
  {
    var r := Mask(password);
    assert forall i | 0 <= i < |r| :: r[i] == password[i];
  }

  /** Masking a masked password changes nothing, and two passwords with the
      same first four characters and the same length look alike. */
  lemma MaskHidesTail(p: string, q: string)
    requires |p| == |q| && p[..Min(|p|, 4)] == q[..Min(|q|, 4)]
    ensures Mask(p) == Mask(q)
    ensures Mask(Mask(p)) == Mask(p)
  {
    var mp, mq := Mask(p), Mask(q);
    forall i | 0 <= i < |mp|
      ensures mp[i] == mq[i]
    {
      if i < 4 {
        assert p[i] == p[..Min(|p|, 4)][i];
        assert q[i] == q[..Min(|q|, 4)][i];
      }
    }
    assert Mask(mp) == mp;
  }
}
