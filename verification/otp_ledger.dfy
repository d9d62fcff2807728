/** The OTP collection as an append-only ledger of hashed codes. Records are
    never changed; `/verify-otp` reads the newest record for an email and, on
    success, deletes every record for that email (backend/src/routes/auth.ts). */
module OtpLedger {
  import opened Wrappers

  /** One stored code: the address, the one-way hash of the code (never the
      code itself) and the expiry instant in milliseconds. */
  datatype OtpRecord = OtpRecord(email: string, codeHash: string, expiresAt: nat)

  type Ledger = seq<OtpRecord>

  /** A code stays usable for 10 minutes. */
  const OtpLifetimeMs: nat := 10 * 60 * 1000

  /** The records for `email`, oldest first. */
  function ForEmail(l: Ledger, email: string): (r: Ledger)
    ensures |r| <= |l|
    ensures forall i :: 0 <= i < |r| ==> r[i].email == email && r[i] in l
    decreases |l|
  {
    if |l| == 0 then []
    else ForEmail(l[..|l| - 1], email) + (if l[|l| - 1].email == email then [l[|l| - 1]] else [])
  }

  /** `i` is the position of the last record appended for `email`. */
  predicate IsNewestAt(l: Ledger, email: string, i: int) {
    && 0 <= i < |l|
    && l[i].email == email
    && forall j :: i < j < |l| ==> l[j].email != email
  }

  /** `OtpModel.findOne({ email }).sort({ createdAt: -1 })`: the newest
      record for the email, taken as the one appended last. */
  function Newest(l: Ledger, email: string): (r: Option<OtpRecord>)
    ensures r.None? <==> forall i :: 0 <= i < |l| ==> l[i].email != email
    ensures r.Some? ==> exists i :: IsNewestAt(l, email, i) && l[i] == r.value
    decreases |l|
  {
    if |l| == 0 then None
    else if l[|l| - 1].email == email then
      assert IsNewestAt(l, email, |l| - 1);
      Some(l[|l| - 1])
    else
      var r := Newest(l[..|l| - 1], email);
      NewestSkipsOtherEmail(l, email, r);
      r
  }

  /** A last record for another email changes neither the absence of records
      for `email` nor which of them is newest. */
  lemma NewestSkipsOtherEmail(l: Ledger, email: string, r: Option<OtpRecord>)
    requires |l| > 0 && l[|l| - 1].email != email
    requires r.None? <==> forall i :: 0 <= i < |l| - 1 ==> l[i].email != email
    requires r.Some? ==> exists i :: IsNewestAt(l[..|l| - 1], email, i) && l[i] == r.value
    ensures r.None? <==> forall i :: 0 <= i < |l| ==> l[i].email != email
    ensures r.Some? ==> exists i :: IsNewestAt(l, email, i) && l[i] == r.value
  {
    if r.Some? {
      var i :| IsNewestAt(l[..|l| - 1], email, i) && l[i] == r.value;
      assert IsNewestAt(l, email, i);
    }
  }

  /** The last record of a ledger, if any. */
  function Last(l: Ledger): (r: Option<OtpRecord>)
    ensures r.None? <==> |l| == 0
    ensures r.Some? ==> r.value == l[|l| - 1]
  {
    if |l| == 0 then None else Some(l[|l| - 1])
  }

  /** `Newest` agrees with the reference definition: the last of the
      email's records in ledger order. */
  lemma {:induction false} NewestIsLastForEmail(l: Ledger, email: string)
    ensures Newest(l, email) == Last(ForEmail(l, email))
    decreases |l|
  {
    if |l| > 0 && l[|l| - 1].email != email {
      NewestIsLastForEmail(l[..|l| - 1], email);
    }
  }

  /** `OtpModel.deleteMany({ email })`: the ledger without any record for the
      email, every other record kept in order. */
  function DeleteAll(l: Ledger, email: string): (r: Ledger)
    ensures |r| <= |l|
    ensures forall i :: 0 <= i < |r| ==> r[i].email != email && r[i] in l
    ensures forall x :: x in l && x.email != email ==> x in r
    decreases |l|
  {
    if |l| == 0 then []
    else DeleteAll(l[..|l| - 1], email) + (if l[|l| - 1].email == email then [] else [l[|l| - 1]])
  }

  /** After deleting the records of `email`, none is left for it, and the
      records of every other email are exactly what they were, in order. */
  lemma {:induction false} DeleteAllScope(l: Ledger, email: string, other: string)
    ensures ForEmail(DeleteAll(l, email), email) == []
    ensures other != email ==> ForEmail(DeleteAll(l, email), other) == ForEmail(l, other)
    decreases |l|
  {
    if |l| > 0 {
      var init := l[..|l| - 1];
      var last := l[|l| - 1];
      DeleteAllScope(init, email, other);
      if last.email == email {
        assert DeleteAll(l, email) == DeleteAll(init, email);
      } else {
        var kept := DeleteAll(init, email);
        assert DeleteAll(l, email) == kept + [last];
        ForEmailAppend(kept, [last], email);
        ForEmailAppend(kept, [last], other);
      }
    }
  }

  /** `ForEmail` distributes over concatenation. */
  lemma {:induction false} ForEmailAppend(a: Ledger, b: Ledger, email: string)
    ensures ForEmail(a + b, email) == ForEmail(a, email) + ForEmail(b, email)
    decreases |b|
  {
    if |b| == 0 {
      assert a + b == a;
    } else {
      var b' := b[..|b| - 1];
      assert (a + b)[..|a + b| - 1] == a + b';
      ForEmailAppend(a, b', email);
    }
  }

  /** Appending a record does not change which record is newest for any
      other email, and makes it the newest for its own. */
  lemma NewestAfterAppend(l: Ledger, rec: OtpRecord, email: string)
    ensures Newest(l + [rec], rec.email) == Some(rec)
    ensures email != rec.email ==> Newest(l + [rec], email) == Newest(l, email)
  {
    assert (l + [rec])[..|l + [rec]| - 1] == l;
  }
}
