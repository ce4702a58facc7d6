/**
 The multi-key operations as their callers see them: when each of them acts, what it answers, what it
 leaves at its two keys, and that it touches no third one.
 */
module FlatLaws {
  import opened ByteStrings
  import opened Packed
  import opened Keyspace
  import opened FlatOps

  /** Every reader finds what it found before. */
  ghost predicate NothingChanged(m: Entries, m': Entries, now: nat) {
    forall k :: SameValue(Live(m, k, now), Live(m', k, now))
  }

  /** Only `a` and `b` may differ. */
  ghost predicate OnlyTwo(m: Entries, m': Entries, a: Bytes, b: Bytes) {
    forall k :: k != a && k != b ==> Find(m', k) == Find(m, k)
  }

  /** RENAME: the entry moves and overwrites whatever was there; onto itself, or from a missing key, nothing happens. */
  lemma RenameIs(m: Entries, src: Bytes, dst: Bytes)
    ensures var m' := RenameFlat(m, src, dst);
      && OnlyTwo(m, m', src, dst)
      && (src !in m || src == dst ==> m' == m)
      && (src in m && src != dst ==> Find(m', dst) == Some(m[src]) && Find(m', src) == None)
  {
  }

  /**
   RENAMENX: 0 exactly when the target is visible, and then nothing changes; no answer exactly when the
   target is not visible and there is no source; otherwise 1, and the source's entry has moved.
   */
  lemma RenameNxIs(m: Entries, src: Bytes, dst: Bytes, now: nat, lru: nat)
    ensures var (m', r) := RenameNxFlat(m, src, dst, now, lru); var taken := Live(m, dst, now).Some?;
      && OnlyTwo(m, m', src, dst)
      && (r == Some(0) <==> taken)
      && (r == None <==> !taken && (src !in m || src == dst))
      && (r == Some(1) <==> !taken && src in m && src != dst)
      && (r != Some(1) ==> NothingChanged(m, m', now))
      && (r == Some(1) ==> Find(m', dst) == Some(m[src]) && Find(m', src) == None)
  {
  }

  /**
   COPY: it happens exactly when the source is visible and the target is free or to be replaced; then
   both keys hold the source's entry. Otherwise nothing changes.
   */
  lemma CopyIs(m: Entries, src: Bytes, dst: Bytes, replace: bool, now: nat, lru: nat)
    ensures var (m', ok) := CopyFlat(m, src, dst, replace, now, lru);
      && OnlyTwo(m, m', src, dst)
      && (ok <==> Live(m, src, now).Some? && (replace || Live(m, dst, now).None?))
      && (!ok ==> NothingChanged(m, m', now))
      && (ok ==> SameValue(Live(m, src, now), Find(m', src)) && Find(m', dst) == Find(m', src))
  {
  }

  /** The key is free or holds a list. */
  predicate TakesList(m: Entries, k: Bytes, now: nat) {
    Live(m, k, now).Some? ==> Live(m, k, now).value.value.List?
  }

  /** LMOVE answers exactly one of three ways, decided by what the two keys show. */
  lemma LMoveAnswers(m: Entries, src: Bytes, dst: Bytes, fromLeft: bool, toLeft: bool, now: nat, lru: nat)
    ensures var r := LMoveFlat(m, src, dst, fromLeft, toLeft, now, lru).1;
      && (r == WrongKind <==> !TakesList(m, dst, now) || !TakesList(m, src, now))
      && (r == Nothing <==> TakesList(m, dst, now) && TakesList(m, src, now) && Elements(m, src, now) == [])
      && (r.Moved? <==> TakesList(m, dst, now) && Elements(m, src, now) != [])
  {
  }

  /** A key that is created gets no deadline; a list that stays keeps its own. */
  lemma LMoveDeadlines(m: Entries, src: Bytes, dst: Bytes, fromLeft: bool, toLeft: bool, now: nat, lru: nat)
    requires src != dst && LMoveFlat(m, src, dst, fromLeft, toLeft, now, lru).1.Moved?
    ensures var m' := LMoveFlat(m, src, dst, fromLeft, toLeft, now, lru).0;
      && dst in m' && m'[dst].expiry == (if Live(m, dst, now).Some? then m[dst].expiry else None)
      && (src in m' <==> |Elements(m, src, now)| > 1) && (src in m' ==> m'[src].expiry == m[src].expiry)
  {
  }

  /** SMOVE answers exactly one of three ways. The destination counts even when it has expired. */
  lemma SMoveAnswers(m: Entries, src: Bytes, dst: Bytes, x: Bytes, now: nat, lru: nat)
    ensures var r := SMoveFlat(m, src, dst, x, now, lru).1;
      var usable := (dst in m ==> m[dst].value.Set?) && (Live(m, src, now).Some? ==> m[src].value.Set?);
      && (r == NotASet <==> !usable)
      && (r == MovedNone <==> usable && x !in Members(m, src, now))
      && (r == MovedOne <==> (dst in m ==> m[dst].value.Set?) && x in Members(m, src, now))
  {
  }

  /** A set that is created gets no deadline; one that stays keeps its own; an emptied one is gone. */
  lemma SMoveDeadlines(m: Entries, src: Bytes, dst: Bytes, x: Bytes, now: nat, lru: nat)
    requires src != dst && SMoveFlat(m, src, dst, x, now, lru).1.MovedOne?
    ensures var m' := SMoveFlat(m, src, dst, x, now, lru).0;
      && dst in m' && m'[dst].expiry == (if Live(m, dst, now).Some? then m[dst].expiry else None)
      && (src in m' <==> Members(m, src, now) != {x}) && (src in m' ==> m'[src].expiry == m[src].expiry)
  {
  }
}
