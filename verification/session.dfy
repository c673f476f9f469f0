/** The reconciliation session of the scanner screen: the receipt id, the
    UIDs the receipt expects, the UIDs scanned so far, and the four things
    that change or read them (a tag read, a load, a verify, and the
    deactivation batch a successful verify starts). Remote calls are
    oracle parameters. */
module Session {
  import opened Wrappers
  import opened HexUid
  import Normalize
  import LexSort

  datatype Session = Session(receiptId: string, expected: seq<string>, scanned: seq<string>)

  /** The state of a freshly created screen. */
  const Initial: Session := Session("", [], [])

  predicate NoDup(s: seq<string>) {
    forall i, j :: 0 <= i < j < |s| ==> s[i] != s[j]
  }

  // ---------------------------------------------------------------------
  // Tag reads

  /** Records a scanned UID unless the list already holds it: the list only
      ever grows at its end, by at most one entry, and never repeats one. */
  function AddScan(scanned: seq<string>, uid: string): (r: seq<string>)
    ensures |scanned| <= |r| <= |scanned| + 1
    ensures r[..|scanned|] == scanned
    ensures forall x :: x in r <==> x in scanned || x == uid
    ensures uid in scanned ==> r == scanned
    ensures NoDup(scanned) ==> NoDup(r)
  {
    if uid in scanned then scanned else scanned + [uid]
  }

  /** A tag-discovered event: a tag without an id is ignored, otherwise its
      id bytes are rendered as a UID and added to the scanned list. */
  function ScanTag(s: Session, tagId: Option<seq<Int8>>): (r: Session)
    ensures r.receiptId == s.receiptId && r.expected == s.expected
    ensures tagId.None? ==> r == s
    ensures tagId.Some? ==> Encode(tagId.value) in r.scanned
    ensures tagId.Some? ==> r.scanned == AddScan(s.scanned, Encode(tagId.value))
  {
    match tagId
    case None => s
    case Some(id) => s.(scanned := AddScan(s.scanned, Encode(id)))
  }

  /** Reading the same tag a second time changes nothing. */
  lemma ScanTagIdempotent(s: Session, tagId: Option<seq<Int8>>)
    ensures ScanTag(ScanTag(s, tagId), tagId) == ScanTag(s, tagId)
  {
    if tagId.Some? {
      assert Encode(tagId.value) in ScanTag(s, tagId).scanned;
    }
  }

  // ---------------------------------------------------------------------
  // Loading a receipt

  /** What the screen reports after the load button. */
  datatype LoadStatus = Loaded | LoadFailed | InvalidInput

  datatype LoadReply = LoadReply(session: Session, status: LoadStatus)

  /** The completion of the receipt fetch. `response` is the remote read
      of the receipt's UID list, `None` for any connection, HTTP or JSON
      failure; the fetch is taken as one atomic step. A successful read
      replaces the expected list as fetched (order and repeats kept, an
      empty list included) and empties the scanned list; a failed one
      touches neither. */
  function ApplyFetch(s: Session, response: Option<seq<string>>): (r: LoadReply)
    ensures r.session.receiptId == s.receiptId
    ensures response.Some? <==> r.status == Loaded
    ensures response.None? <==> r.status == LoadFailed
    ensures response.Some? ==> r.session.expected == response.value && r.session.scanned == []
    ensures response.None? ==> r.session == s
  {
    match response
    case None => LoadReply(s, LoadFailed)
    case Some(uids) => LoadReply(s.(expected := uids, scanned := []), Loaded)
  }

  /** The load button. `text` is the contents of the receipt field and
      `fetch` the remote store, asked under the trimmed text. An empty field
      changes nothing; otherwise the trimmed text becomes the receipt id
      whatever the fetch's outcome. */
  function Load(s: Session, text: string, fetch: string -> Option<seq<string>>): (r: LoadReply)
    ensures |text| == 0 ==> r == LoadReply(s, InvalidInput)
    ensures |text| > 0 ==> r.session.receiptId == Normalize.Trim(text) && r.status != InvalidInput
    ensures |text| > 0 && fetch(Normalize.Trim(text)).Some? ==>
              r.status == Loaded
              && r.session.expected == fetch(Normalize.Trim(text)).value
              && r.session.scanned == []
    ensures |text| > 0 && fetch(Normalize.Trim(text)).None? ==>
              r.status == LoadFailed
              && r.session.expected == s.expected
              && r.session.scanned == s.scanned
  {
    if |text| == 0 then LoadReply(s, InvalidInput)
    else
      var key := Normalize.Trim(text);
      ApplyFetch(s.(receiptId := key), fetch(key))
  }

  /** A field holding only whitespace passes the non-empty guard and is
      fetched under the empty key. */
  lemma BlankTextFetchesEmptyKey(s: Session, text: string, fetch: string -> Option<seq<string>>)
    requires |text| > 0 && Normalize.AllSpace(text)
    ensures Load(s, text, fetch).status != InvalidInput
    ensures Load(s, text, fetch).session.receiptId == ""
  {
    Normalize.TrimAllSpace(text);
  }

  // ---------------------------------------------------------------------
  // Verification

  /** Applying `f` to every element of a list. */
  function MapSeq<T, U>(f: T -> U, xs: seq<T>): (r: seq<U>)
    ensures |r| == |xs|
    ensures forall i :: 0 <= i < |xs| ==> r[i] == f(xs[i])
  {
    seq(|xs|, i requires 0 <= i < |xs| => f(xs[i]))
  }

  lemma MapSeqConcat<T, U>(f: T -> U, a: seq<T>, b: seq<T>)
    ensures MapSeq(f, a + b) == MapSeq(f, a) + MapSeq(f, b)
  {
  }

  /** Adding or removing one occurrence of `x` on both sides keeps (or
      breaks) a permutation. */
  lemma RemoveOne<T>(x: T, tail: seq<T>, pre: seq<T>, post: seq<T>)
    ensures multiset([x] + tail) == multiset(pre + [x] + post)
            <==> multiset(tail) == multiset(pre + post)
  {
    assert multiset([x] + tail) == multiset{x} + multiset(tail);
    assert multiset(pre + [x] + post) == multiset{x} + multiset(pre + post);
    assert multiset(tail) == multiset([x] + tail) - multiset{x};
    assert multiset(pre + post) == multiset(pre + [x] + post) - multiset{x};
  }

  /** Mapping element-wise keeps a permutation a permutation. */
  lemma {:induction false} MapSeqPermutation<T, U>(f: T -> U, a: seq<T>, b: seq<T>)
    requires multiset(a) == multiset(b)
    ensures multiset(MapSeq(f, a)) == multiset(MapSeq(f, b))
  {
    if |a| == 0 {
      assert |b| == |multiset(b)| == 0;
    } else {
      var x := a[0];
      assert x in multiset(b);
      var i :| 0 <= i < |b| && b[i] == x;
      var pre, post := b[..i], b[i + 1..];
      assert b == pre + [x] + post;
      assert a == [x] + a[1..];
      RemoveOne(x, a[1..], pre, post);
      MapSeqPermutation(f, a[1..], pre + post);
      MapSeqConcat(f, [x], a[1..]);
      MapSeqConcat(f, pre + [x], post);
      MapSeqConcat(f, pre, [x]);
      MapSeqConcat(f, pre, post);
      RemoveOne(f(x), MapSeq(f, a[1..]), MapSeq(f, pre), MapSeq(f, post));
    }
  }

  /** Normalises every entry of a list, keeping its order. */
  function NormalizeAll(xs: seq<string>): seq<string> {
    MapSeq(Normalize.Normalize, xs)
  }

  /** The verify button's computation: both normalised sorted lists (kept
      for the log) and whether they are equal. */
  datatype Verdict = Verdict(matched: bool, expectedNormalized: seq<string>, scannedNormalized: seq<string>)

  /** Sorting both normalised lists and comparing them is the same as
      comparing them as multisets: order never matters, and every repeated
      entry must be matched by an equally repeated one. */
  function Verify(s: Session): (v: Verdict)
    ensures LexSort.Sorted(v.expectedNormalized)
    ensures multiset(v.expectedNormalized) == multiset(NormalizeAll(s.expected))
    ensures LexSort.Sorted(v.scannedNormalized)
    ensures multiset(v.scannedNormalized) == multiset(NormalizeAll(s.scanned))
    ensures v.matched <==> multiset(NormalizeAll(s.expected)) == multiset(NormalizeAll(s.scanned))
  {
    var e := LexSort.Sort(NormalizeAll(s.expected));
    var c := LexSort.Sort(NormalizeAll(s.scanned));
    LexSort.SortedEqualIffSameElements(e, c);
    Verdict(e == c, e, c)
  }

  lemma NormalizeAllSingleton(x: string)
    ensures NormalizeAll([x]) == [Normalize.Normalize(x)]
  {
    var r := MapSeq(Normalize.Normalize, [x]);
    assert |r| == 1 && r[0] == Normalize.Normalize(x);
  }

  /** Normalising element-wise keeps a permutation a permutation. */
  lemma NormalizeAllPermutation(a: seq<string>, b: seq<string>)
    requires multiset(a) == multiset(b)
    ensures multiset(NormalizeAll(a)) == multiset(NormalizeAll(b))
  {
    MapSeqPermutation(Normalize.Normalize, a, b);
  }

  /** The verdict does not depend on the order of either list. */
  lemma VerifyIgnoresOrder(s: Session, t: Session)
    requires multiset(s.expected) == multiset(t.expected)
    requires multiset(s.scanned) == multiset(t.scanned)
    ensures Verify(s).matched == Verify(t).matched
  {
    NormalizeAllPermutation(s.expected, t.expected);
    NormalizeAllPermutation(s.scanned, t.scanned);
  }

  /** A match needs as many expected entries as scanned ones. */
  lemma MatchSameLength(s: Session)
    requires Verify(s).matched
    ensures |s.expected| == |s.scanned|
  {
    assert |multiset(NormalizeAll(s.expected))| == |multiset(NormalizeAll(s.scanned))|;
  }

  /** Right after a successful load nothing is scanned, so verifying
      matches exactly when the receipt's UID list is empty. */
  lemma VerifyAfterLoad(s: Session, text: string, fetch: string -> Option<seq<string>>)
    requires Load(s, text, fetch).status == Loaded
    ensures Verify(Load(s, text, fetch).session).matched
            <==> |fetch(Normalize.Trim(text)).value| == 0
  {
    var e := NormalizeAll(Load(s, text, fetch).session.expected);
    assert |multiset(e)| == |e|;
  }

  /** A receipt whose UID list is empty loads successfully and verifies at
      once, with nothing to deactivate. */
  lemma EmptyReceiptVerifies(s: Session, text: string, fetch: string -> Option<seq<string>>)
    requires |text| > 0 && fetch(Normalize.Trim(text)) == Some([])
    ensures Load(s, text, fetch).status == Loaded
    ensures Verify(Load(s, text, fetch).session).matched
  {
    VerifyAfterLoad(s, text, fetch);
  }

  // ---------------------------------------------------------------------
  // Deactivation

  /** One DELETE of `Inventory/<uid>`: `completed` is true when the request
      ran without raising an exception, whatever status code the server
      answered; false when the request raised and the error was caught. */
  datatype Attempt = Attempt(uid: string, completed: bool)

  /** `deactivateUIDs`: one delete per UID, in list order. `deleteOk` says
      whether the request for a UID completed without an exception (a
      non-2xx response code is only logged, so it counts as completed); a
      failed request is caught and the loop goes on. */
  method Deactivate(uids: seq<string>, deleteOk: string -> bool) returns (attempts: seq<Attempt>)
    ensures |attempts| == |uids|
    ensures forall i :: 0 <= i < |uids| ==> attempts[i].uid == uids[i]
    ensures forall i :: 0 <= i < |uids| ==> attempts[i].completed == deleteOk(uids[i])
  {
    attempts := [];
    for i := 0 to |uids|
      invariant |attempts| == i
      invariant forall k :: 0 <= k < i ==> attempts[k] == Attempt(uids[k], deleteOk(uids[k]))
    {
      attempts := attempts + [Attempt(uids[i], deleteOk(uids[i]))];
    }
  }

  /** The verify button: on a match, the scanned UIDs are deactivated; on a
      mismatch, nothing is deleted. The session itself is not changed. */
  method VerifyAndDeactivate(s: Session, deleteOk: string -> bool) returns (v: Verdict, attempts: seq<Attempt>)
    ensures v == Verify(s)
    ensures v.matched <==> multiset(NormalizeAll(s.expected)) == multiset(NormalizeAll(s.scanned))
    ensures !v.matched ==> attempts == []
    ensures v.matched ==> |attempts| == |s.scanned|
    ensures v.matched ==> forall i :: 0 <= i < |s.scanned| ==>
              attempts[i] == Attempt(s.scanned[i], deleteOk(s.scanned[i]))
  {
    v := Verify(s);
    if v.matched {
      attempts := Deactivate(s.scanned, deleteOk);
    } else {
      attempts := [];
    }
  }

  /** The UIDs whose delete request raised an exception, in attempt order;
      a non-2xx answer is not a failure. */
  function Failed(attempts: seq<Attempt>): (r: seq<string>)
    ensures |r| <= |attempts|
    ensures forall x :: x in r <==> exists i :: 0 <= i < |attempts| && attempts[i] == Attempt(x, false)
  {
    if |attempts| == 0 then []
    else
      var rest := Failed(attempts[1..]);
      assert forall i :: 0 < i < |attempts| ==> attempts[i] == attempts[1..][i - 1];
      if attempts[0].completed then rest else [attempts[0].uid] + rest
  }

  /** The failures of two runs of attempts, one after the other, are those
      of the first run followed by those of the second: the report keeps
      the order in which the deletes were attempted. */
  lemma {:induction false} FailedConcat(a: seq<Attempt>, b: seq<Attempt>)
    ensures Failed(a + b) == Failed(a) + Failed(b)
  {
    if |a| > 0 {
      assert (a + b)[1..] == a[1..] + b;
      FailedConcat(a[1..], b);
    } else {
      assert a + b == b;
    }
  }

  /** A single attempt is reported exactly when its delete failed. */
  lemma FailedSingle(x: Attempt)
    ensures Failed([x]) == (if x.completed then [] else [x.uid])
  {
  }

  // ---------------------------------------------------------------------
  // The session as a state machine

  datatype Event =
    | TagRead(tagId: Option<seq<Int8>>)
    | LoadClicked(text: string, response: Option<seq<string>>)
    | VerifyClicked

  function Step(s: Session, e: Event): Session {
    match e
    case TagRead(id) => ScanTag(s, id)
    case LoadClicked(text, response) => Load(s, text, _ => response).session
    case VerifyClicked => s
  }

  function Run(s: Session, events: seq<Event>): Session
    decreases |events|
  {
    if |events| == 0 then s else Run(Step(s, events[0]), events[1..])
  }

  /** What every reachable session satisfies: the scanned list has no
      repeats and holds only rendered tag ids. */
  predicate Valid(s: Session) {
    NoDup(s.scanned) && forall i :: 0 <= i < |s.scanned| ==> IsUid(s.scanned[i])
  }

  lemma StepKeepsValid(s: Session, e: Event)
    requires Valid(s)
    ensures Valid(Step(s, e))
  {
  }

  /** Every sequence of tag reads, loads and verifies keeps the session valid. */
  lemma {:induction false} RunKeepsValid(s: Session, events: seq<Event>)
    requires Valid(s)
    ensures Valid(Run(s, events))
    decreases |events|
  {
    if |events| > 0 {
      StepKeepsValid(s, events[0]);
      RunKeepsValid(Step(s, events[0]), events[1..]);
    }
  }

  /** In a valid session normalising the scanned list changes nothing. */
  lemma ScannedAreCanonical(s: Session)
    requires Valid(s)
    ensures NormalizeAll(s.scanned) == s.scanned
  {
    forall i | 0 <= i < |s.scanned|
      ensures NormalizeAll(s.scanned)[i] == s.scanned[i]
    {
      Normalize.UidIsCanonical(s.scanned[i]);
    }
  }

  lemma {:induction false} NoDupCounts(a: seq<string>)
    requires NoDup(a)
    ensures forall x :: multiset(a)[x] <= 1
  {
    if |a| > 0 {
      NoDupCounts(a[1..]);
      assert a == [a[0]] + a[1..];
      assert a[0] !in a[1..];
    }
  }

  lemma CountsNoDup(a: seq<string>)
    requires forall x :: multiset(a)[x] <= 1
    ensures NoDup(a)
  {
    forall i, j | 0 <= i < j < |a|
      ensures a[i] != a[j]
    {
      assert a == a[..i] + [a[i]] + a[i + 1..j] + [a[j]] + a[j + 1..];
      assert multiset(a)[a[i]] >= multiset([a[i]] + a[i + 1..j] + [a[j]])[a[i]];
    }
  }

  /** In any reachable session a match requires the receipt's entries to be
      pairwise distinct after normalisation: a receipt listing one UID twice
      can never be verified, because a tag is recorded only once. */
  lemma MatchNeedsDistinctExpected(s: Session)
    requires Valid(s) && Verify(s).matched
    ensures NoDup(NormalizeAll(s.expected))
  {
    ScannedAreCanonical(s);
    NoDupCounts(s.scanned);
    CountsNoDup(NormalizeAll(s.expected));
  }
}
