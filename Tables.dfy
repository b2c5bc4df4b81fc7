/** The table reader every archive format shares: a count of entries read one
    after another from a position, each checked as soon as it is read. The
    first entry that cannot be read or fails its check aborts the whole table;
    there is no partial table. */
module Tables {
  import opened Base
  import opened Cursors

  /** `n` more entries read from `pos` by `entryAt`, after the entries `acc`. */
  function Entries<E>(entryAt: nat -> Result<Parsed<E>>, check: E -> Option<Error>,
                      pos: nat, n: nat, acc: seq<E>): Result<Parsed<seq<E>>>
    decreases n, 1
  {
    if n == 0 then Ok(Parsed(acc, pos)) else NextEntry(entryAt, check, pos, n, acc)
  }

  /** The entry at `pos` is read and checked, then the rest follows from where it ends. */
  function NextEntry<E>(entryAt: nat -> Result<Parsed<E>>, check: E -> Option<Error>,
                        pos: nat, n: nat, acc: seq<E>): Result<Parsed<seq<E>>>
    requires n > 0
    decreases n, 0
  {
    var e :- entryAt(pos);
    match check(e.value)
    case Some(err) => Fail(err)
    case None => Entries(entryAt, check, e.next, n - 1, acc + [e.value])
  }

  /** An entry that is read and passes its check is followed by the rest of the table. */
  lemma EntriesStep<E>(entryAt: nat -> Result<Parsed<E>>, check: E -> Option<Error>, pos: nat, n: nat, acc: seq<E>)
    requires n > 0 && entryAt(pos).Ok? && check(entryAt(pos).value.value).None?
    ensures var e := entryAt(pos).value;
      Entries(entryAt, check, pos, n, acc) == Entries(entryAt, check, e.next, n - 1, acc + [e.value])
  {
  }

  /** A table that is read holds `n` more entries after `acc`, and every one
      of them passed the check. */
  lemma {:induction false} EntriesPass<E>(entryAt: nat -> Result<Parsed<E>>, check: E -> Option<Error>,
                                          pos: nat, n: nat, acc: seq<E>)
    requires Entries(entryAt, check, pos, n, acc).Ok?
    ensures var v := Entries(entryAt, check, pos, n, acc).value.value;
      && |v| == |acc| + n && v[..|acc|] == acc
      && forall k | |acc| <= k < |v| :: check(v[k]).None?
    decreases n
  {
    if n > 0 {
      var e := entryAt(pos).value;
      EntriesPass(entryAt, check, e.next, n - 1, acc + [e.value]);
      var v := Entries(entryAt, check, pos, n, acc).value.value;
      assert v[..|acc| + 1] == acc + [e.value];
      assert v[..|acc|] == v[..|acc| + 1][..|acc|];
    }
  }

  /** Entries k .. k+n-1 can be read: entry j is `entryOf(j)`, it starts at
      `slot(j)` and the next one starts where it ends. */
  ghost predicate LaidOut<E>(entryAt: nat -> Result<Parsed<E>>, slot: nat -> nat, entryOf: nat -> E, k: nat, n: nat)
  {
    forall j | k <= j < k + n :: entryAt(slot(j)) == Ok(Parsed(entryOf(j), slot(j + 1)))
  }

  /** Entries k .. k+n-1 pass the check. */
  ghost predicate AllPass<E>(check: E -> Option<Error>, entryOf: nat -> E, k: nat, n: nat)
  {
    forall j | k <= j < k + n :: check(entryOf(j)).None?
  }

  /** A table whose entries can all be read is accepted exactly when every
      entry passes its check; it then holds the entries in on-disk order and
      ends after the last one. */
  lemma {:induction false} ReadLaidOut<E>(entryAt: nat -> Result<Parsed<E>>, check: E -> Option<Error>,
                                          slot: nat -> nat, entryOf: nat -> E, k: nat, n: nat, acc: seq<E>)
    requires |acc| == k && LaidOut(entryAt, slot, entryOf, k, n)
    ensures var r := Entries(entryAt, check, slot(k), n, acc);
      && (r.Ok? <==> AllPass(check, entryOf, k, n))
      && (r.Ok? ==> && |r.value.value| == k + n && r.value.value[..k] == acc
                    && (forall j | k <= j < k + n :: r.value.value[j] == entryOf(j))
                    && r.value.next == slot(k + n))
    decreases n
  {
    if n > 0 {
      var e := entryOf(k);
      assert entryAt(slot(k)) == Ok(Parsed(e, slot(k + 1)));
      if check(e).None? {
        var r := Entries(entryAt, check, slot(k), n, acc);
        assert r == Entries(entryAt, check, slot(k + 1), n - 1, acc + [e]);
        ReadLaidOut(entryAt, check, slot, entryOf, k + 1, n - 1, acc + [e]);
        assert AllPass(check, entryOf, k, n) <==> AllPass(check, entryOf, k + 1, n - 1);
        if r.Ok? {
          var v := r.value.value;
          assert v[..k + 1] == acc + [e];
          assert v[..k] == v[..k + 1][..k];
        }
      }
    }
  }

  /** A table whose entries can all be read fails with the error of the first
      entry that does not pass its check. */
  lemma {:induction false} ReadLaidOutError<E>(entryAt: nat -> Result<Parsed<E>>, check: E -> Option<Error>,
                                               slot: nat -> nat, entryOf: nat -> E, k: nat, n: nat, acc: seq<E>)
    requires LaidOut(entryAt, slot, entryOf, k, n)
    ensures var r := Entries(entryAt, check, slot(k), n, acc);
      r.Fail? ==> exists j | k <= j < k + n :: AllPass(check, entryOf, k, j - k) && check(entryOf(j)) == Some(r.error)
    decreases n
  {
    if n > 0 {
      var e := entryOf(k);
      assert entryAt(slot(k)) == Ok(Parsed(e, slot(k + 1)));
      var r := Entries(entryAt, check, slot(k), n, acc);
      if check(e).Some? {
        assert AllPass(check, entryOf, k, 0);
      }
      if check(e).None? {
        assert r == NextEntry(entryAt, check, slot(k), n, acc);
        assert r == Entries(entryAt, check, slot(k + 1), n - 1, acc + [e]);
        ReadLaidOutError(entryAt, check, slot, entryOf, k + 1, n - 1, acc + [e]);
        if r.Fail? {
          var j :| k + 1 <= j < k + n && AllPass(check, entryOf, k + 1, j - k - 1) && check(entryOf(j)) == Some(r.error);
          assert AllPass(check, entryOf, k, j - k);
        }
      }
    }
  }

  /** A table whose entry k+m cannot be read, after m entries that can and
      that pass, fails with the error of that read: nothing after it is read. */
  lemma {:induction false} ReadUnreadable<E>(entryAt: nat -> Result<Parsed<E>>, check: E -> Option<Error>,
                                             slot: nat -> nat, entryOf: nat -> E, k: nat, m: nat, n: nat, acc: seq<E>)
    requires m < n
    requires LaidOut(entryAt, slot, entryOf, k, m) && AllPass(check, entryOf, k, m)
    requires entryAt(slot(k + m)).Fail?
    ensures Entries(entryAt, check, slot(k), n, acc) == Fail(entryAt(slot(k + m)).error)
    decreases m
  {
    if m > 0 {
      var e := entryOf(k);
      assert entryAt(slot(k)) == Ok(Parsed(e, slot(k + 1)));
      assert check(e).None?;
      ReadUnreadable(entryAt, check, slot, entryOf, k + 1, m - 1, n - 1, acc + [e]);
    }
  }

  // ---------------------------------------------------------------------------
  // Reading each entry just before its file

  /** `n` more entries read from `pos`, each checked and then its file read
      at once, after the files `saved`; the first failure stops the loop. */
  function Interleaved<E>(entryAt: nat -> Result<Parsed<E>>, check: E -> Option<Error>, read: E -> Result<File>,
                          pos: nat, n: nat, saved: seq<File>): Unpacked
    decreases n
  {
    if n == 0 then Unpacked(saved, None)
    else match entryAt(pos)
      case Fail(err) => Unpacked(saved, Some(err))
      case Ok(e) =>
        match check(e.value)
        case Some(err) => Unpacked(saved, Some(err))
        case None =>
          match read(e.value)
          case Fail(err) => Unpacked(saved, Some(err))
          case Ok(f) => Interleaved(entryAt, check, read, e.next, n - 1, saved + [f])
  }

  /** Reading the table from `pos` on, after the entries `acc`, reaches
      entry k, and reading that entry's file gives `r`. */
  ghost predicate ReachesFile<E>(entryAt: nat -> Result<Parsed<E>>, check: E -> Option<Error>, read: E -> Result<File>,
                                 pos: nat, acc: seq<E>, k: nat, r: Result<File>)
    requires |acc| <= k
  {
    var t := Entries(entryAt, check, pos, k + 1 - |acc|, acc);
    t.Ok? && |t.value.value| == k + 1 && read(t.value.value[k]) == r
  }

  /** Reading the table from `pos` on, after the entries `acc`, fails with
      `err` before entry k is read and checked, or reaches it and reading its
      file fails with `err`. */
  ghost predicate StopsAtFile<E>(entryAt: nat -> Result<Parsed<E>>, check: E -> Option<Error>, read: E -> Result<File>,
                                 pos: nat, acc: seq<E>, k: nat, err: Error)
    requires |acc| <= k
  {
    var t := Entries(entryAt, check, pos, k + 1 - |acc|, acc);
    (t.Fail? && t.error == err) || ReachesFile(entryAt, check, read, pos, acc, k, Fail(err))
  }

  /** An entry that is read and passes its check moves the table on by one. */
  ghost predicate Passes<E>(entryAt: nat -> Result<Parsed<E>>, check: E -> Option<Error>, pos: nat)
  {
    entryAt(pos).Ok? && check(entryAt(pos).value.value).None?
  }

  /** One turn of the loop: the entry and its file are read and the file
      saved, or the loop ends with the files saved so far and, if an entry
      was due, the error of its read, its check or its file. */
  lemma InterleavedStep<E>(entryAt: nat -> Result<Parsed<E>>, check: E -> Option<Error>, read: E -> Result<File>,
                           pos: nat, n: nat, saved: seq<File>)
    ensures var u := Interleaved(entryAt, check, read, pos, n, saved);
      if n > 0 && Passes(entryAt, check, pos) && read(entryAt(pos).value.value).Ok? then
        u == Interleaved(entryAt, check, read, entryAt(pos).value.next, n - 1, saved + [read(entryAt(pos).value.value).value])
      else
        && u.saved == saved
        && (n == 0 ==> u.failure.None?)
        && (n > 0 && entryAt(pos).Fail? ==> u.failure == Some(entryAt(pos).error))
        && (n > 0 && entryAt(pos).Ok? && check(entryAt(pos).value.value).Some? ==>
              u.failure == check(entryAt(pos).value.value))
        && (n > 0 && Passes(entryAt, check, pos) ==> u.failure == Some(read(entryAt(pos).value.value).error))
  {
  }

  /** The loop keeps the files saved before it. */
  lemma {:induction false} InterleavedKeeps<E>(entryAt: nat -> Result<Parsed<E>>, check: E -> Option<Error>,
                                               read: E -> Result<File>, pos: nat, n: nat, saved: seq<File>)
    ensures var u := Interleaved(entryAt, check, read, pos, n, saved);
      |saved| <= |u.saved| && u.saved[..|saved|] == saved
    decreases n
  {
    InterleavedStep(entryAt, check, read, pos, n, saved);
    if n > 0 && Passes(entryAt, check, pos) && read(entryAt(pos).value.value).Ok? {
      var more := saved + [read(entryAt(pos).value.value).value];
      InterleavedKeeps(entryAt, check, read, entryAt(pos).value.next, n - 1, more);
      var u := Interleaved(entryAt, check, read, pos, n, saved);
      assert u.saved[..|saved|] == u.saved[..|more|][..|saved|];
    }
  }

  /** Entry |acc| is the one at `pos`. */
  lemma ReachesHere<E>(entryAt: nat -> Result<Parsed<E>>, check: E -> Option<Error>, read: E -> Result<File>,
                       pos: nat, acc: seq<E>, k: nat, r: Result<File>)
    requires k == |acc| && Passes(entryAt, check, pos)
    ensures ReachesFile(entryAt, check, read, pos, acc, k, r) <==> read(entryAt(pos).value.value) == r
  {
    EntriesStep(entryAt, check, pos, 1, acc);
  }

  lemma StopsHere<E>(entryAt: nat -> Result<Parsed<E>>, check: E -> Option<Error>, read: E -> Result<File>,
                     pos: nat, acc: seq<E>, k: nat, err: Error)
    requires k == |acc|
    ensures StopsAtFile(entryAt, check, read, pos, acc, k, err) <==>
      || (entryAt(pos).Fail? && entryAt(pos).error == err)
      || (entryAt(pos).Ok? && check(entryAt(pos).value.value) == Some(err))
      || (Passes(entryAt, check, pos) && read(entryAt(pos).value.value) == Fail(err))
  {
    if Passes(entryAt, check, pos) {
      EntriesStep(entryAt, check, pos, 1, acc);
    } else {
      assert Entries(entryAt, check, pos, 1, acc) == NextEntry(entryAt, check, pos, 1, acc);
    }
  }

  /** A later entry is reached through the entry at `pos`. */
  lemma ReachesLater<E>(entryAt: nat -> Result<Parsed<E>>, check: E -> Option<Error>, read: E -> Result<File>,
                        pos: nat, acc: seq<E>, k: nat, r: Result<File>)
    requires |acc| < k && Passes(entryAt, check, pos)
    ensures var e := entryAt(pos).value;
      ReachesFile(entryAt, check, read, pos, acc, k, r) <==>
      ReachesFile(entryAt, check, read, e.next, acc + [e.value], k, r)
  {
    var e := entryAt(pos).value;
    EntriesStep(entryAt, check, pos, k + 1 - |acc|, acc);
    assert k + 1 - |acc| - 1 == k + 1 - |acc + [e.value]|;
  }

  lemma StopsLater<E>(entryAt: nat -> Result<Parsed<E>>, check: E -> Option<Error>, read: E -> Result<File>,
                      pos: nat, acc: seq<E>, k: nat, err: Error)
    requires |acc| < k && Passes(entryAt, check, pos)
    ensures var e := entryAt(pos).value;
      StopsAtFile(entryAt, check, read, pos, acc, k, err) <==>
      StopsAtFile(entryAt, check, read, e.next, acc + [e.value], k, err)
  {
    var e := entryAt(pos).value;
    EntriesStep(entryAt, check, pos, k + 1 - |acc|, acc);
    assert k + 1 - |acc| - 1 == k + 1 - |acc + [e.value]|;
  }

  /** Saved file k is the file of entry k of the table: the entries up to it
      can be read and pass, even when a later one does not. */
  lemma {:induction false} InterleavedSaved<E>(entryAt: nat -> Result<Parsed<E>>, check: E -> Option<Error>,
                                               read: E -> Result<File>,
                                               pos: nat, n: nat, acc: seq<E>, saved: seq<File>, k: nat)
    requires |acc| == |saved| <= k < |Interleaved(entryAt, check, read, pos, n, saved).saved|
    ensures ReachesFile(entryAt, check, read, pos, acc, k, Ok(Interleaved(entryAt, check, read, pos, n, saved).saved[k]))
    decreases n
  {
    InterleavedStep(entryAt, check, read, pos, n, saved);
    if n > 0 && Passes(entryAt, check, pos) && read(entryAt(pos).value.value).Ok? {
      var e := entryAt(pos).value;
      var f := read(e.value).value;
      var r := Ok(Interleaved(entryAt, check, read, pos, n, saved).saved[k]);
      if k == |saved| {
        var u := Interleaved(entryAt, check, read, e.next, n - 1, saved + [f]);
        InterleavedKeeps(entryAt, check, read, e.next, n - 1, saved + [f]);
        assert u.saved[k] == u.saved[..|saved + [f]|][k];
        ReachesHere(entryAt, check, read, pos, acc, k, r);
      } else {
        InterleavedSaved(entryAt, check, read, e.next, n - 1, acc + [e.value], saved + [f], k);
        ReachesLater(entryAt, check, read, pos, acc, k, r);
      }
    }
  }

  /** A loop that fails stops at the entry after the last saved file: that
      entry cannot be read or fails its check, or its file cannot be read,
      and the failure is that error. */
  lemma {:induction false} InterleavedStops<E>(entryAt: nat -> Result<Parsed<E>>, check: E -> Option<Error>,
                                               read: E -> Result<File>,
                                               pos: nat, n: nat, acc: seq<E>, saved: seq<File>)
    requires |acc| == |saved|
    requires Interleaved(entryAt, check, read, pos, n, saved).failure.Some?
    ensures var u := Interleaved(entryAt, check, read, pos, n, saved);
      |acc| <= |u.saved| && StopsAtFile(entryAt, check, read, pos, acc, |u.saved|, u.failure.value)
    decreases n
  {
    var u := Interleaved(entryAt, check, read, pos, n, saved);
    InterleavedStep(entryAt, check, read, pos, n, saved);
    InterleavedKeeps(entryAt, check, read, pos, n, saved);
    if n > 0 && Passes(entryAt, check, pos) && read(entryAt(pos).value.value).Ok? {
      var e := entryAt(pos).value;
      InterleavedStops(entryAt, check, read, e.next, n - 1, acc + [e.value], saved + [read(e.value).value]);
      StopsLater(entryAt, check, read, pos, acc, |u.saved|, u.failure.value);
    } else {
      StopsHere(entryAt, check, read, pos, acc, |u.saved|, u.failure.value);
    }
  }
}
