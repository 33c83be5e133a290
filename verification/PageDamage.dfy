/** What the node lookup accepts, and that it notices damaged pages (src/nbt.cpp). */
module PageDamage {
  import opened Bytes
  import opened Ndb
  import opened Page
  import opened NbtReader
  import opened NbtTree
  import opened Wrappers
  import Crc

  /** A page the reader goes on with: in the file, of the node type twice over, with sizes that fit its level. */
  predicate Readable(file: seq<Byte>, at: nat) {
    && at + 512 <= |file|
    && file[at + 496] == 0x81 && file[at + 497] == 0x81
    && file[at + 488] <= file[at + 489]
    && ((file[at + 491] == 0 && file[at + 490] == 32) || (file[at + 491] == 1 && file[at + 490] == 24))
  }

  /** The 496 body bytes have the checksum that the trailer says. */
  predicate Sound(file: seq<Byte>, at: nat)
    requires at + 512 <= |file|
  {
    ReadU32(file, at + 500) == Crc.Checksum(file[at..at + 496])
  }

  lemma AcceptsExactly(file: seq<Byte>, at: nat, strictCrc: bool)
    ensures PageError(file, at, strictCrc).None? <==> Readable(file, at) && (strictCrc ==> Sound(file, at))
  {
    hide ReadU32, Crc.Checksum;
  }

  // ---- Damage ----

  /** A node page whose stored body differs from the sealed one inside a window of at most four bytes. */
  ghost predicate Damaged(file: seq<Byte>, at: Bref) {
    exists before: seq<Byte>, v: seq<Byte>, w: seq<Byte>, after: seq<Byte> ::
      DamagedBy(file, at, before, v, w, after)
  }

  ghost predicate DamagedBy(file: seq<Byte>, at: Bref, before: seq<Byte>, v: seq<Byte>, w: seq<Byte>,
                            after: seq<Byte>) {
    && |v| == |w| <= 4 && v != w && |before + v + after| == 496
    && StoredAt(file, at.ib, before + w + after + SealedPage(before + v + after, 0x81, at.bid, at.ib)[496..])
  }

  /** A strict reader refuses it. */
  lemma DamageIsNoticed(file: seq<Byte>, at: Bref)
    requires Damaged(file, at)
    ensures PageError(file, at.ib, true).Some?
  {
    hide ReadU32, Crc.Checksum, SealedPage, StoredAt, PageError;
    var before: seq<Byte>, v: seq<Byte>, w: seq<Byte>, after: seq<Byte> :| DamagedBy(file, at, before, v, w, after);
    var good, bad := before + v + after, before + w + after;
    var tail := SealedPage(good, 0x81, at.bid, at.ib)[496..];
    Crc.ChangeDetected(before, v, w, after);
    TailChecksum(good, at);
    StoredLength(file, at.ib, bad + tail);
    StoredPart(file, at.ib, bad + tail, 0, 496);
    StoredPart(file, at.ib, bad + tail, 500, 504);
    assert (bad + tail)[0..496] == bad && (bad + tail)[500..504] == tail[4..8];
    StoredIs(file, at.ib, bad);
    StoredIs(file, at.ib + 500, Le32(Crc.Checksum(good)));
    ReadsBack32(file, at.ib + 500, Crc.Checksum(good));
    AcceptsExactly(file, at.ib, true);
  }

  lemma TailChecksum(body: seq<Byte>, at: Bref)
    requires |body| == 496
    ensures SealedPage(body, 0x81, at.bid, at.ib)[496..][4..8] == Le32(Crc.Checksum(body))
  {
    hide Crc.Checksum, Le16, Le32, Le64, PageSig;
  }

  /** A lookup that starts at a damaged page fails, and so does a listing. */
  lemma DamagedRootFails(file: seq<Byte>, root: Bref, target: Nid)
    requires Damaged(file, root)
    ensures Find(file, root, target, true).Failure? && Listed(file, root, true).Failure?
  {
    hide PageError;
    DamageIsNoticed(file, root);
  }

  /** A lookup that reaches a damaged child fails. */
  lemma DamagedChildFails(file: seq<Byte>, root: Bref, target: Nid, i: nat)
    requires PageError(file, root.ib, true).None? && CLevel(file, root.ib) == 1 && i < CEnt(file, root.ib)
    requires root.ib + CEnt(file, root.ib) * 24 <= |file| && Damaged(file, Child(file, root.ib, i))
    requires Child(file, root.ib, i) != NO_CHILD
    ensures Listed(file, root, true).Failure? && root.ib + 512 <= |file|
    ensures Descend(file, root.ib, CEnt(file, root.ib), target) == Success(Child(file, root.ib, i)) ==>
              Find(file, root, target, true).Failure?
  {
    hide PageError, Child, Descend, ChildrenFrom, Damaged;
    DamageIsNoticed(file, Child(file, root.ib, i));
    ValidPageFits(file, root.ib, true);
    BadChildStopsListing(file, root.ib, i, 0, CEnt(file, root.ib));
  }

  lemma {:induction false} BadChildStopsListing(file: seq<Byte>, at: nat, i: nat, from: nat, n: nat)
    requires from <= i < n && at + n * 24 <= |file| && PageError(file, Child(file, at, i).ib, true).Some?
    ensures ChildrenFrom(file, at, from, n, true).Failure?
    decreases i - from
  {
    hide PageError, Child;
    if from == i {
    } else {
      BadChildStopsListing(file, at, i, from + 1, n);
    }
  }

  // ---- Which child a lookup takes ----

  /** Entry `i` is the last of the leading entries whose keys are not above the target. */
  predicate Chosen(file: seq<Byte>, at: nat, n: nat, target: Nid, i: nat)
    requires at + n * 24 <= |file|
  {
    && i < n && (forall j | 0 <= j <= i :: Key(file, at, j) <= target)
    && (i + 1 < n ==> Key(file, at, i + 1) > target)
  }

  lemma {:induction false} ChoiceIs(file: seq<Byte>, at: nat, k: nat, n: nat, target: Nid, chosen: Option<nat>)
    requires k <= n && at + n * 24 <= |file| && forall j | 0 <= j < k :: Key(file, at, j) <= target
    requires chosen == if k == 0 then None else Some(k - 1)
    ensures var r := ChooseFrom(file, at, k, n, target, chosen);
            && r.Success?
            && (forall i: nat :: r.value == Some(i) <==> Chosen(file, at, n, target, i))
            && (r.value.None? <==> n == 0 || Key(file, at, 0) > target)
    decreases n - k
  {
    hide Key;
    if k == n {
    } else if Key(file, at, k) <= target {
      ChoiceIs(file, at, k + 1, n, target, Some(k));
    } else {
    }
  }

  /** Entry `i` is chosen, and the page it refers to is refused or is no leaf. */
  predicate ChosenIsRefused(file: seq<Byte>, at: nat, target: Nid, i: nat, strictCrc: bool) {
    && at + 512 <= |file| && at + file[at + 488] as nat * 24 <= |file|
    && Chosen(file, at, file[at + 488], target, i)
    && var child := Child(file, at, i);
       && child != Bref(0, 0)
       && (!Accepted(file, child.ib, strictCrc) || file[child.ib + 491] != 0)
  }

  /**
   When a lookup fails: the root is refused, or it is an index without entries, or the child chosen -- unless its
   reference is empty -- is refused or is no leaf. (All entries counted lie in the file.)
   */
  lemma FailsExactly(file: seq<Byte>, root: Bref, target: Nid, strictCrc: bool)
    requires forall at: nat | Readable(file, at) :: EntriesFit(file, at)
    ensures Find(file, root, target, strictCrc).Failure?
            <==> || !Accepted(file, root.ib, strictCrc)
                 || (file[root.ib + 491] == 1 && file[root.ib + 488] == 0)
                 || (file[root.ib + 491] == 1
                     && exists i: nat :: ChosenIsRefused(file, root.ib, target, i, strictCrc))
  {
    hide Readable, Sound, PageError, Key, Child, SearchFrom, ChooseFrom;
    AcceptsExactly(file, root.ib, strictCrc);
    if Accepted(file, root.ib, strictCrc) {
      AcceptedFits(file, root.ib, strictCrc);
      var n := file[root.ib + 488];
      if file[root.ib + 491] == 0 {
        SearchSucceeds(file, root.ib, 0, n, target);
      } else if n > 0 {
        ChoiceIs(file, root.ib, 0, n, target, None);
        var chosen := ChooseFrom(file, root.ib, 0, n, target, None).value;
        if chosen.Some? {
          var child := Child(file, root.ib, chosen.value);
          assert Chosen(file, root.ib, n, target, chosen.value);
          ChildFailsExactly(file, child, target, strictCrc);
          assert ChosenIsRefused(file, root.ib, target, chosen.value, strictCrc)
                 <==> FindInChild(file, child, target, strictCrc).Failure?;
        }
      }
    }
  }

  lemma ChildFailsExactly(file: seq<Byte>, child: Bref, target: Nid, strictCrc: bool)
    requires forall at: nat | Readable(file, at) :: EntriesFit(file, at)
    ensures FindInChild(file, child, target, strictCrc).Failure?
            <==> child != Bref(0, 0)
                 && (!Accepted(file, child.ib, strictCrc) || file[child.ib + 491] != 0)
  {
    hide Readable, Sound, PageError, SearchFrom;
    AcceptsExactly(file, child.ib, strictCrc);
    if Accepted(file, child.ib, strictCrc) {
      AcceptedFits(file, child.ib, strictCrc);
      if file[child.ib + 491] == 0 {
        SearchSucceeds(file, child.ib, 0, file[child.ib + 488], target);
      }
    }
  }

  predicate Accepted(file: seq<Byte>, at: nat, strictCrc: bool) {
    Readable(file, at) && (strictCrc ==> at + 512 <= |file| && Sound(file, at))
  }

  /** The entries a page counts lie in the file, even if the count is more than the page can hold. */
  predicate EntriesFit(file: seq<Byte>, at: nat) {
    at + 512 <= |file| && at + file[at + 488] as nat * (if file[at + 491] == 0 then 32 else 24) <= |file|
  }

  lemma AcceptedFits(file: seq<Byte>, at: nat, strictCrc: bool)
    requires Accepted(file, at, strictCrc) && forall a: nat | Readable(file, a) :: EntriesFit(file, a)
    ensures EntriesFit(file, at) && file[at + 491] <= 1
  {
  }

  lemma {:induction false} SearchSucceeds(file: seq<Byte>, at: nat, i: nat, n: nat, target: Nid)
    requires i <= n && at + n * 32 <= |file|
    ensures SearchFrom(file, at, i, n, target).Success?
    decreases n - i
  {
    hide DecodeNbtEntry;
    if i == n {
    } else {
      SearchSucceeds(file, at, i + 1, n, target);
    }
  }
}
