/** The replica's log (distributed/replication/common/log.cc, log-impl.h). */
module VrLog {
  import opened Options

  type Request(==, !new, 0)

  datatype Status = Committed | Prepared | Speculative | FastPrepared

  datatype Viewstamp = Viewstamp(view: nat, opnum: nat)

  datatype Entry = Entry(viewstamp: Viewstamp, request: Request, state: Status)

  /** Entry `i` has number `start + i`. */
  ghost predicate Contiguous(entries: seq<Entry>, start: nat) {
    forall i :: 0 <= i < |entries| ==> entries[i].viewstamp.opnum == start + i
  }

  /** The same operation: everything but the local state. */
  ghost predicate Same(a: Entry, b: Entry) { a.viewstamp == b.viewstamp && a.request == b.request }

  ghost predicate SameLog(a: seq<Entry>, b: seq<Entry>) {
    |a| == |b| && forall i :: 0 <= i < |a| ==> Same(a[i], b[i])
  }

  /** The new entries are kept up to the first one that the log does not have, or has from another view. */
  ghost function Divergence(entries: seq<Entry>, at: nat, elems: seq<Entry>): nat
    ensures Divergence(entries, at, elems) <= |elems|
    decreases |elems|
  {
    if elems == [] || at >= |entries| || entries[at].viewstamp.view != elems[0].viewstamp.view then 0
    else 1 + Divergence(entries, at + 1, elems[1..])
  }

  ghost function AsPrepared(elems: seq<Entry>): seq<Entry> {
    seq(|elems|, i requires 0 <= i < |elems| => elems[i].(state := Prepared))
  }

  /** The log after installing entries that go at index `at`. */
  ghost function Installed(entries: seq<Entry>, at: nat, elems: seq<Entry>): seq<Entry>
    requires at <= |entries|
  {
    var d := Divergence(entries, at, elems);
    DivergenceInside(entries, at, elems);
    if d == |elems| then entries else entries[..at + d] + AsPrepared(elems[d..])
  }

  lemma {:induction false} DivergenceInside(entries: seq<Entry>, at: nat, elems: seq<Entry>)
    requires at <= |entries|
    ensures at + Divergence(entries, at, elems) <= |entries|
    ensures var d := Divergence(entries, at, elems);
            && (forall i :: 0 <= i < d ==> entries[at + i].viewstamp.view == elems[i].viewstamp.view)
            && (d < |elems| && at + d < |entries| ==> entries[at + d].viewstamp.view != elems[d].viewstamp.view)
    decreases |elems|
  {
    if elems != [] && at < |entries| && entries[at].viewstamp.view == elems[0].viewstamp.view {
      DivergenceInside(entries, at + 1, elems[1..]);
      assert forall i :: 0 < i < |elems| ==> elems[i] == elems[1..][i - 1];
    }
  }

  /** The first index with these properties is the divergence. */
  lemma {:induction false} DivergenceIs(entries: seq<Entry>, at: nat, elems: seq<Entry>, d: nat)
    requires d <= |elems| && at + d <= |entries|
    requires forall i :: 0 <= i < d ==> entries[at + i].viewstamp.view == elems[i].viewstamp.view
    requires d == |elems| || at + d == |entries| || entries[at + d].viewstamp.view != elems[d].viewstamp.view
    ensures Divergence(entries, at, elems) == d
    decreases |elems|
  {
    if d > 0 {
      assert entries[at + 0].viewstamp.view == elems[0].viewstamp.view;
      forall i | 0 <= i < d - 1 ensures entries[at + 1 + i].viewstamp.view == elems[1..][i].viewstamp.view {
        assert entries[at + (i + 1)].viewstamp.view == elems[i + 1].viewstamp.view;
      }
      DivergenceIs(entries, at + 1, elems[1..], d - 1);
    }
  }

  /** The first `n` entries, or all of them. */
  ghost function Cut(entries: seq<Entry>, n: nat): (cut: seq<Entry>)
    ensures |cut| == if |entries| <= n then |entries| else n
  {
    if |entries| <= n then entries else entries[..n]
  }

  lemma DumpIsContiguous(entries: seq<Entry>, start: nat, at: nat)
    requires Contiguous(entries, start) && at <= |entries|
    ensures Contiguous(entries[at..], start + at) && (at < |entries| ==> entries[at..][0].viewstamp.opnum == start + at)
  {
  }

  /** The new entries continue a log of `n` entries, or overlap its end. */
  ghost predicate Continues(elems: seq<Entry>, start: nat, n: nat) {
    elems != [] ==>
      && start <= elems[0].viewstamp.opnum <= start + n
      && Contiguous(elems, elems[0].viewstamp.opnum)
  }

  /** The log after installing entries that name their own places. */
  ghost function InstallAll(entries: seq<Entry>, start: nat, elems: seq<Entry>): seq<Entry>
    requires Continues(elems, start, |entries|)
  {
    if elems == [] then entries else Installed(entries, elems[0].viewstamp.opnum - start, elems)
  }

  /** `d` is where the entries from index `at` on and the new ones part. */
  ghost predicate IsDivergence(entries: seq<Entry>, at: nat, elems: seq<Entry>, d: nat) {
    && d <= |elems| && at + d <= |entries|
    && (forall i :: 0 <= i < d ==> entries[at + i].viewstamp.view == elems[i].viewstamp.view)
    && (d == |elems| || at + d == |entries| || entries[at + d].viewstamp.view != elems[d].viewstamp.view)
  }

  /** So installing keeps the entries before it, and continues with the new ones from it on. */
  lemma InstalledIs(entries: seq<Entry>, at: nat, elems: seq<Entry>, d: nat)
    requires at <= |entries| && IsDivergence(entries, at, elems, d)
    ensures Installed(entries, at, elems)
         == if d == |elems| then entries else entries[..at + d] + AsPrepared(elems[d..])
  {
    DivergenceIs(entries, at, elems, d);
  }

  lemma SuffixFrom(entries: seq<Entry>, start: nat, from: nat, at: nat)
    requires Contiguous(entries, start) && at <= |entries|
    requires at < |entries| ==> at == if from < start then 0 else from - start
    requires at == |entries| ==> from >= start + |entries| || entries == []
    ensures forall e :: e in entries[at..] <==> e in entries && e.viewstamp.opnum >= from
  {
    forall i | 0 <= i < |entries| ensures entries[i].viewstamp.opnum >= from <==> i >= at {}
    forall e | e in entries && e.viewstamp.opnum >= from ensures e in entries[at..] {
      var i :| 0 <= i < |entries| && entries[i] == e;
      assert entries[at..][i - at] == e;
    }
  }

  /** The log keeps what it has before the new entries part from it, and continues with them from there. */
  ghost predicate IsInstalled(was: seq<Entry>, at: nat, elems: seq<Entry>, d: nat, now: seq<Entry>) {
    && IsDivergence(was, at, elems, d)
    && now == if d == |elems| then was else was[..at + d] + AsPrepared(elems[d..])
  }

  class Log {
    const start: nat
    var entries: seq<Entry>

    ghost predicate Valid() reads this { start >= 1 && Contiguous(entries, start) }

    constructor (start: nat)
      requires start >= 1
      ensures Valid() && this.start == start && entries == []
    {
      this.start := start;
      entries := [];
    }

    function LastOpnum(): (n: nat)
      requires Valid()
      reads this
      ensures n == start + |entries| - 1
    {
      if entries == [] then start - 1 else entries[|entries| - 1].viewstamp.opnum
    }

    /** The two assertions on the operation number are what the caller has to meet. */
    method Append(vs: Viewstamp, request: Request, state: Status)
      requires Valid() && vs.opnum == LastOpnum() + 1
      modifies this
      ensures Valid() && entries == old(entries) + [Entry(vs, request, state)]
    {
      entries := entries + [Entry(vs, request, state)];
    }

    method Find(opnum: nat) returns (r: Option<Entry>)
      requires Valid()
      ensures r.None? <==> opnum < start || opnum > LastOpnum()
      ensures r.Some? ==> r.value == entries[opnum - start] && r.value.viewstamp.opnum == opnum
    {
      if entries == [] || opnum < start || opnum - start > |entries| - 1 {
        return None;
      }
      r := Some(entries[opnum - start]);
    }

    /** Removes operation `op` and those after it, and no other. */
    method RemoveAfter(op: nat)
      requires Valid() && op >= start
      modifies this
      ensures Valid() && entries <= old(entries)
      ensures forall e :: e in entries <==> e in old(entries) && e.viewstamp.opnum < op
      ensures entries == Cut(old(entries), op - start)
    {
      if op > LastOpnum() {
        return;
      }
      entries := entries[..op - start];
      assert LastOpnum() == op - 1;
    }

    /** The entries from `from` on: the end of the log that holds exactly those operations. */
    method Dump(from: nat) returns (out: seq<Entry>)
      requires Valid()
      ensures |out| <= |entries| && out == entries[|entries| - |out|..]
      ensures forall e :: e in out <==> e in entries && e.viewstamp.opnum >= from
    {
      out := [];
      var i := if from < start then start else from;
      ghost var at := if i <= LastOpnum() then i - start else |entries|;
      while i <= LastOpnum()
        invariant start <= i && (i <= LastOpnum() + 1 ==> at + |out| == i - start)
        invariant at + |out| <= |entries| && out == entries[at..at + |out|]
        invariant i > LastOpnum() ==> at + |out| == |entries|
      {
        var entry := Find(i);
        out := out + [entry.value];
        i := i + 1;
      }
      assert entries[at..at + |out|] == entries[at..];
      SuffixFrom(entries, start, from, at);
    }

    /** Entries that continue the log or overlap its end. Where they have the same views as the log's the log keeps
        its own, state included; from the first other view on they replace what was there, as prepared. */
    method Install(elems: seq<Entry>)
      requires Valid() && Continues(elems, start, |entries|)
      modifies this
      ensures Valid() && entries == InstallAll(old(entries), start, elems)
      ensures elems == [] ==> entries == old(entries)
      ensures elems != [] ==>
                var at := elems[0].viewstamp.opnum - start;
                exists d :: IsInstalled(old(entries), at, elems, d, entries)
    {
      if elems == [] { return; }
      ghost var at := elems[0].viewstamp.opnum - start;
      var it := Overlap(elems);
      InstalledIs(entries, at, elems, it);
      if it < |elems| {
        DumpIsContiguous(elems, elems[0].viewstamp.opnum, it);
        assert elems[it..][0].viewstamp.opnum - start == at + it;
        Replace(elems[it..]);
      }
      assert IsInstalled(old(entries), at, elems, it, entries);
    }

    /** Cuts the log where the new entries start, and appends them. */
    method Replace(elems: seq<Entry>)
      requires Valid() && elems != [] && Continues(elems, start, |entries|)
      modifies this
      ensures Valid() && entries == old(entries)[..elems[0].viewstamp.opnum - start] + AsPrepared(elems)
    {
      RemoveAfter(elems[0].viewstamp.opnum);
      AppendAll(elems);
    }

    /** The first of the new entries that the log does not have from the same view. */
    method Overlap(elems: seq<Entry>) returns (it: nat)
      requires Valid() && elems != [] && Continues(elems, start, |entries|)
      ensures IsDivergence(entries, elems[0].viewstamp.opnum - start, elems, it)
    {
      ghost var at := elems[0].viewstamp.opnum - start;
      it := 0;
      while it < |elems|
        invariant it <= |elems| && at + it <= |entries|
        invariant forall i :: 0 <= i < it ==> entries[at + i].viewstamp.view == elems[i].viewstamp.view
      {
        var oldEntry := Find(elems[it].viewstamp.opnum);
        if oldEntry.None? || elems[it].viewstamp.view != oldEntry.value.viewstamp.view {
          break;
        }
        it := it + 1;
      }
    }

    method AppendAll(elems: seq<Entry>)
      requires Valid() && Contiguous(elems, LastOpnum() + 1)
      modifies this
      ensures Valid() && entries == old(entries) + AsPrepared(elems)
    {
      for it := 0 to |elems|
        invariant Valid() && LastOpnum() == old(LastOpnum()) + it
        invariant entries == old(entries) + AsPrepared(elems[..it])
      {
        Append(elems[it].viewstamp, elems[it].request, Prepared);
        PreparedMore(elems, it);
      }
      assert elems[..|elems|] == elems;
    }
  }

  lemma PreparedMore(elems: seq<Entry>, i: nat)
    requires i < |elems|
    ensures AsPrepared(elems[..i + 1]) == AsPrepared(elems[..i]) + [elems[i].(state := Prepared)]
  {
    assert elems[..i + 1] == elems[..i] + [elems[i]];
  }

  /** The two logs hold the same operation wherever their views agree, and are the same below index `at`. */
  ghost predicate Agree(a: seq<Entry>, b: seq<Entry>, at: nat) {
    && (forall i :: 0 <= i < |a| && i < |b| && a[i].viewstamp.view == b[i].viewstamp.view ==> Same(a[i], b[i]))
    && (forall i :: 0 <= i < |a| && i < |b| && i < at ==> Same(a[i], b[i]))
  }

  /** Truncating past the sender's last operation and installing the sender's entries from `at` on gives the
      sender's log. */
  lemma InstallMakesEqual(mine: seq<Entry>, theirs: seq<Entry>, at: nat)
    requires Agree(mine, theirs, at) && at <= |mine| && at <= |theirs|
    ensures SameLog(Installed(Cut(mine, |theirs|), at, theirs[at..]), theirs)
  {
    var cut := Cut(mine, |theirs|);
    assert Agree(cut, theirs, at);
    InstallOverCut(cut, theirs, at);
  }

  lemma InstallOverCut(cut: seq<Entry>, theirs: seq<Entry>, at: nat)
    requires Agree(cut, theirs, at) && at <= |cut| <= |theirs|
    ensures SameLog(Installed(cut, at, theirs[at..]), theirs)
  {
    var elems := theirs[at..];
    var d := Divergence(cut, at, elems);
    DivergenceInside(cut, at, elems);
    var result := Installed(cut, at, elems);
    forall i | 0 <= i < |theirs| ensures i < |result| && Same(result[i], theirs[i]) {
      if i < at + d {
        assert result[i] == cut[i];
        if i >= at {
          assert cut[at + (i - at)].viewstamp.view == elems[i - at].viewstamp.view;
        }
      } else {
        assert result[i] == AsPrepared(elems[d..])[i - at - d];
      }
    }
  }

  lemma InstalledDump(mine: seq<Entry>, theirs: seq<Entry>, start: nat, at: nat, dump: seq<Entry>)
    requires Agree(mine, theirs, at) && at <= |mine| && at <= |theirs| && Contiguous(theirs, start)
    requires dump == theirs[at..]
    ensures Continues(dump, start, |Cut(mine, |theirs|)|)
    ensures SameLog(InstallAll(Cut(mine, |theirs|), start, dump), theirs)
    ensures OwnOrPrepared(InstallAll(Cut(mine, |theirs|), start, dump), mine)
  {
    DumpIsContiguous(theirs, start, at);
    InstallMakesEqual(mine, theirs, at);
    if at == |theirs| { assert dump == []; }
    InstalledStates(mine, |theirs|, start, dump);
  }

  /** The receiver has the sender's operations below `from`. */
  ghost predicate HasBelow(mine: seq<Entry>, theirs: seq<Entry>, from: nat) {
    forall i :: 0 <= i < |theirs| && theirs[i].viewstamp.opnum < from ==> i < |mine| && Same(mine[i], theirs[i])
  }

  /** An operation number and a view name one operation. */
  ghost predicate ViewsAgree(a: seq<Entry>, b: seq<Entry>) {
    forall i :: 0 <= i < |a| && i < |b| && a[i].viewstamp.view == b[i].viewstamp.view ==> Same(a[i], b[i])
  }

  /** What a dump leaves out is below `from`. */
  lemma BelowDump(mine: seq<Entry>, theirs: seq<Entry>, start: nat, from: nat, at: nat)
    requires Contiguous(theirs, start) && HasBelow(mine, theirs, from) && ViewsAgree(mine, theirs) && at <= |theirs|
    requires forall e :: e in theirs[at..] <==> e in theirs && e.viewstamp.opnum >= from
    ensures Agree(mine, theirs, at) && at <= |mine|
  {
    forall i | 0 <= i < at ensures theirs[i].viewstamp.opnum < from {
      assert forall e :: e in theirs[at..] ==> e.viewstamp.opnum >= start + at;
      assert theirs[i] in theirs && theirs[i] !in theirs[at..];
    }
    assert at > 0 ==> theirs[at - 1].viewstamp.opnum < from;
  }

  /** An entry of the result was there before, or is prepared. */
  ghost predicate OwnOrPrepared(result: seq<Entry>, mine: seq<Entry>) {
    forall i :: 0 <= i < |result| ==> result[i].state == Prepared || (i < |mine| && result[i] == mine[i])
  }

  lemma InstalledStates(mine: seq<Entry>, n: nat, start: nat, elems: seq<Entry>)
    requires Continues(elems, start, |Cut(mine, n)|)
    ensures OwnOrPrepared(InstallAll(Cut(mine, n), start, elems), mine)
  {
    if elems != [] { DivergenceInside(Cut(mine, n), elems[0].viewstamp.opnum - start, elems); }
  }

  /** The exchange between two replicas: the sender's dump replaces what differs in the receiver's log. The
      receiver has to hold the sender's operations below the dump. */
  method TransferLog(receiver: Log, sender: Log, from: nat)
    requires receiver != sender && receiver.Valid() && sender.Valid() && receiver.start == sender.start
    requires HasBelow(receiver.entries, sender.entries, from) && ViewsAgree(receiver.entries, sender.entries)
    modifies receiver
    ensures receiver.Valid() && SameLog(receiver.entries, sender.entries)
    ensures OwnOrPrepared(receiver.entries, old(receiver.entries))
  {
    var dump := sender.Dump(from);
    ghost var at := |sender.entries| - |dump|;
    BelowDump(receiver.entries, sender.entries, sender.start, from, at);
    InstalledDump(receiver.entries, sender.entries, sender.start, at, dump);
    TakeOver(receiver, sender.LastOpnum(), dump, |sender.entries|);
  }

  /** Cuts the log behind operation `last`, and installs the entries. */
  method TakeOver(receiver: Log, last: nat, dump: seq<Entry>, ghost n: nat)
    requires receiver.Valid() && last + 1 == receiver.start + n
    requires Continues(dump, receiver.start, |Cut(receiver.entries, n)|)
    modifies receiver
    ensures receiver.Valid() && receiver.entries == InstallAll(Cut(old(receiver.entries), n), receiver.start, dump)
  {
    receiver.RemoveAfter(last + 1);
    receiver.Install(dump);
  }
}
