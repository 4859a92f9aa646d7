/** How many records one spool pass sends. */
module SpoolPasses {
  import opened RecordFile
  import opened PostDaemon
  import opened SpoolCounter

  /** Files of the directory, each once, as scandir lists them. */
  ghost predicate IsListing(dir: map<string, File>, listing: seq<Input>) {
    && (forall i :: 0 <= i < |listing| ==> listing[i].name in dir)
    && (forall i, j :: 0 <= i < j < |listing| ==> listing[i].name != listing[j].name)
  }

  /** The file would be counted as sent if there were no limit on them. */
  predicate Sendable(c: Config, s: State, i: Input) {
    CountsAsSent(c, s, 0, i.name, i.now, i.ok)
  }

  /** How many files of a listing would be. */
  function Sendables(c: Config, s: State, listing: seq<Input>): nat
    decreases |listing|
  {
    if listing == [] then 0 else (if Sendable(c, s, listing[0]) then 1 else 0) + Sendables(c, s, listing[1..])
  }

  function Min(a: nat, b: nat): nat {
    if a <= b then a else b
  }

  /** Every pass, whatever it is given, sends at most one record more than its limit. */
  lemma {:induction false} PassSendsAtMost(c: Config, p: Pass, listing: seq<Input>)
    requires c.Valid() && p.sent <= SPOOL_MAX_SEND_RECORDS + 1
    ensures SpoolPass(c, p, listing).sent <= SPOOL_MAX_SEND_RECORDS + 1
    decreases |listing|
  {
    hide Received, ReadSpooled;
    if listing == [] {
    } else {
      PassSendsAtMost(c, SpoolInput(c, p, listing[0]), listing[1..]);
    }
  }

  // ---- Exactly how many ----

  lemma {:induction false} ArrivedKeeps(dir: map<string, File>, arrivals: seq<Arrival>, n: string)
    requires n in dir
    ensures n in Arrived(dir, arrivals) && Arrived(dir, arrivals)[n] == dir[n]
    decreases |arrivals|
  {
    if arrivals == [] {
    } else {
      var a := arrivals[0];
      ArrivedKeeps(if a.name in dir then dir else dir[a.name := a.file], arrivals[1..], n);
    }
  }

  /** The files of the listing are in the directory as they were at the start. */
  ghost predicate Untouched(s: State, s': State, listing: seq<Input>) {
    forall i :: 0 <= i < |listing| ==>
      listing[i].name in s.dir && listing[i].name in s'.dir && s'.dir[listing[i].name] == s.dir[listing[i].name]
  }

  /** One file: what it adds to the count, and the rest of the listing left alone. */
  lemma InputSends(c: Config, s: State, p: Pass, listing: seq<Input>)
    requires c.Valid() && listing != [] && IsListing(s.dir, listing) && Untouched(s, p.state, listing)
    ensures var p' := SpoolInput(c, p, listing[0]);
      && p'.processed == p.processed + 1
      && p'.sent == p.sent + (if p.sent <= SPOOL_MAX_SEND_RECORDS && Sendable(c, s, listing[0]) then 1 else 0)
      && Untouched(s, p'.state, listing[1..])
  {
    hide Received, ReadSpooled, Deducted;
    var received := Received(p.state, listing[0].arrivals);
    forall i | 0 <= i < |listing|
      ensures listing[i].name in received.dir && received.dir[listing[i].name] == s.dir[listing[i].name]
    {
      ReceivedKeeps(p.state, listing[0].arrivals, listing[i].name);
    }
    StepTouchesOne(c, p.(state := received), listing[0]);
  }

  lemma ReceivedKeeps(s: State, arrivals: seq<Arrival>, n: string)
    requires n in s.dir
    ensures n in Received(s, arrivals).dir && Received(s, arrivals).dir[n] == s.dir[n]
  {
    ArrivedKeeps(s.dir, arrivals, n);
  }

  lemma StepTouchesOne(c: Config, p: Pass, i: Input)
    requires c.Valid() && i.name in p.state.dir
    ensures var p' := SpoolStep(c, p, i.name, i.now, i.ok, i.measured);
      && p'.processed == p.processed + 1
      && p'.sent == p.sent + (if CountsAsSent(c, p.state, p.sent, i.name, i.now, i.ok) then 1 else 0)
      && (p'.state.dir == p.state.dir || p'.state.dir == p.state.dir - {i.name})
  {
    hide ReadSpooled, Deducted;
  }

  lemma SendablesFirst(c: Config, s: State, listing: seq<Input>, m: nat)
    requires 0 < m <= |listing|
    ensures Sendables(c, s, listing[..m]) ==
      (if Sendable(c, s, listing[0]) then 1 else 0) + Sendables(c, s, listing[1..][..m - 1])
  {
    hide Sendable;
    assert listing[..m][0] == listing[0] && listing[..m][1..] == listing[1..][..m - 1];
  }

  lemma NoneSendable(c: Config, s: State)
    ensures Sendables(c, s, []) == 0
  {
  }

  lemma {:induction false} RestSends(c: Config, s: State, p: Pass, listing: seq<Input>)
    requires c.Valid() && IsListing(s.dir, listing) && Untouched(s, p.state, listing)
    requires 0 < p.sent <= SPOOL_MAX_SEND_RECORDS + 1 && p.processed < SPOOL_MAX_PROCESS_RECORDS
    ensures SpoolPass(c, p, listing).sent ==
      Min(SPOOL_MAX_SEND_RECORDS + 1,
          p.sent + Sendables(c, s, listing[..Min(|listing|, SPOOL_MAX_PROCESS_RECORDS - p.processed)]))
    decreases |listing|
  {
    hide SpoolInput, Sendable, Untouched, Sendables;
    NoneSendable(c, s);
    if listing == [] {
    } else {
      var m := Min(|listing|, SPOOL_MAX_PROCESS_RECORDS - p.processed);
      InputSends(c, s, p, listing);
      var p' := SpoolInput(c, p, listing[0]);
      SendablesFirst(c, s, listing, m);
      if p'.processed < SPOOL_MAX_PROCESS_RECORDS {
        RestSends(c, s, p', listing[1..]);
      } else {
        assert listing[1..][..0] == [];
      }
    }
  }

  /** What a pass sends: nothing if the first file fails, and otherwise what can be sent of the first 60, up to 51. */
  lemma PassSends(c: Config, s: State, listing: seq<Input>)
    requires c.Valid() && IsListing(s.dir, listing)
    ensures SpoolPass(c, Pass(s, 0, 0), listing).sent ==
      if listing == [] || !Sendable(c, s, listing[0]) then 0
      else Min(SPOOL_MAX_SEND_RECORDS + 1, Sendables(c, s, listing[..Min(|listing|, SPOOL_MAX_PROCESS_RECORDS)]))
  {
    hide SpoolInput, Sendable, Sendables;
    if listing != [] {
      var p' := SpoolInput(c, Pass(s, 0, 0), listing[0]);
      InputSends(c, s, Pass(s, 0, 0), listing);
      if Sendable(c, s, listing[0]) {
        RestSends(c, s, p', listing[1..]);
        var m := Min(|listing|, SPOOL_MAX_PROCESS_RECORDS);
        SendablesFirst(c, s, listing, m);
      }
    }
  }

  /** A pass sends more than its limit of 50 exactly when its first file and 51 of its first 60 can be sent. */
  lemma PassExceedsIff(c: Config, s: State, listing: seq<Input>)
    requires c.Valid() && IsListing(s.dir, listing)
    ensures SpoolPass(c, Pass(s, 0, 0), listing).sent > SPOOL_MAX_SEND_RECORDS <==>
      && listing != [] && Sendable(c, s, listing[0])
      && Sendables(c, s, listing[..Min(|listing|, SPOOL_MAX_PROCESS_RECORDS)]) > SPOOL_MAX_SEND_RECORDS
  {
    hide SpoolPass, Sendable, Sendables;
    PassSends(c, s, listing);
  }

  // ---- It happens ----

  function NameOf(i: nat): (name: string)
    ensures |name| == i
  {
    seq(i, _ => 'x')
  }

  /** n fresh files with the same contents. */
  function Files(n: nat, contents: string): map<string, File> {
    map i: nat | i < n :: NameOf(i) := File(i, contents, true, true, 0, 1)
  }

  /** A listing of them, at the time they were written, with posts that succeed. */
  function ListingOf(n: nat): seq<Input> {
    seq(n, i requires 0 <= i < n => Input([], NameOf(i), 0, true, 0))
  }

  lemma FilesAreListed(n: nat, contents: string)
    ensures IsListing(Files(n, contents), ListingOf(n))
    ensures forall i :: 0 <= i < n ==> ListingOf(n)[i].name in Files(n, contents)
    ensures forall i :: 0 <= i < n ==> Files(n, contents)[ListingOf(n)[i].name] == File(i, contents, true, true, 0, 1)
  {
  }

  lemma {:induction false} AllSendable(c: Config, s: State, listing: seq<Input>)
    requires forall i :: 0 <= i < |listing| ==> Sendable(c, s, listing[i])
    ensures Sendables(c, s, listing) == |listing|
    decreases |listing|
  {
    hide Sendable;
    if listing == [] {
    } else {
      AllSendable(c, s, listing[1..]);
    }
  }

  lemma FreshIsSendable(c: Config, s: State, i: Input, file: File)
    requires c.Valid() && i.name in s.dir && s.dir[i.name] == file && i.ok
    requires file.regular && file.owned && file.mtime == i.now
    ensures Sendable(c, s, i)
  {
    hide ReadSpooled;
  }

  lemma FilesAreSendable(c: Config, s: State, n: nat, contents: string)
    requires c.Valid() && s.dir == Files(n, contents)
    ensures IsListing(s.dir, ListingOf(n))
    ensures forall i :: 0 <= i < n ==> Sendable(c, s, ListingOf(n)[i])
  {
    hide Sendable, Files, IsListing;
    FilesAreListed(n, contents);
    forall i | 0 <= i < n
      ensures Sendable(c, s, ListingOf(n)[i])
    {
      FreshIsSendable(c, s, ListingOf(n)[i], File(i, contents, true, true, 0, 1));
    }
  }

  /** A spool of 51 fresh files, whatever they hold: all of them count as sent in one pass. */
  lemma FiftyOneAreSent(c: Config, s: State, contents: string)
    requires c.Valid() && s.dir == Files(51, contents)
    ensures SpoolPass(c, Pass(s, 0, 0), ListingOf(51)).sent == 51
  {
    hide SpoolPass, Sendable, Sendables, Files, IsListing;
    var listing := ListingOf(51);
    FilesAreSendable(c, s, 51, contents);
    AllSendable(c, s, listing);
    assert listing[..51] == listing;
    PassSends(c, s, listing);
  }

  // ---- What is posted ----

  /** A file that would be posted if there were no limit. */
  predicate Postable(c: Config, s: State, i: Input) {
    && i.name in s.dir
    && s.dir[i.name].regular && !Expired(c, s.dir[i.name], i.now) && s.dir[i.name].owned
    && ReadSpooled(s.dir[i.name].contents).Some?
  }

  /** One file: what it adds to the log. */
  lemma InputPosts(c: Config, s: State, p: Pass, listing: seq<Input>)
    requires c.Valid() && listing != [] && IsListing(s.dir, listing) && Untouched(s, p.state, listing)
    ensures var i := listing[0]; var log := SpoolInput(c, p, i).state.log;
      log == p.state.log +
        if p.sent <= SPOOL_MAX_SEND_RECORDS && Postable(c, s, i) then [Posted(false, s.dir[i.name].id, i.now, i.ok)]
        else []
  {
    hide Received, ReadSpooled, Deducted;
    ReceivedKeeps(p.state, listing[0].arrivals, listing[0].name);
    ReceivedKeepsLog(p.state, listing[0].arrivals);
  }

  lemma ReceivedKeepsLog(s: State, arrivals: seq<Arrival>)
    ensures Received(s, arrivals).log == s.log
  {
  }

  lemma {:induction false} LogGrows(c: Config, s: State, p: Pass, listing: seq<Input>)
    requires c.Valid() && IsListing(s.dir, listing) && Untouched(s, p.state, listing)
    ensures p.state.log <= SpoolPass(c, p, listing).state.log
    decreases |listing|
  {
    hide SpoolInput, Postable, Untouched;
    if listing == [] {
    } else {
      InputSends(c, s, p, listing);
      InputPosts(c, s, p, listing);
      LogGrows(c, s, SpoolInput(c, p, listing[0]), listing[1..]);
    }
  }

  /** File i of the rest of a listing is posted, if `sent` were sent before it. */
  predicate PostsAt(c: Config, s: State, sent: nat, listing: seq<Input>, i: nat)
    requires i < |listing|
  {
    Postable(c, s, listing[i]) && sent + Sendables(c, s, listing[..i]) <= SPOOL_MAX_SEND_RECORDS
  }

  /** One of the first m is. */
  ghost predicate PostsWithin(c: Config, s: State, sent: nat, listing: seq<Input>, m: nat)
    requires m <= |listing|
  {
    exists i :: 0 <= i < m && PostsAt(c, s, sent, listing, i)
  }

  lemma PostsAtNext(c: Config, s: State, sent: nat, listing: seq<Input>, i: nat)
    requires 0 < i < |listing|
    ensures PostsAt(c, s, sent, listing, i) <==>
      PostsAt(c, s, sent + (if Sendable(c, s, listing[0]) then 1 else 0), listing[1..], i - 1)
  {
    hide Postable, Sendable, Sendables;
    SendablesFirst(c, s, listing, i);
  }

  /** The first file, or one of those behind it. */
  lemma PostsWithinFirst(c: Config, s: State, sent: nat, listing: seq<Input>, m: nat)
    requires 0 < m <= |listing|
    ensures PostsWithin(c, s, sent, listing, m) <==>
      || (Postable(c, s, listing[0]) && sent <= SPOOL_MAX_SEND_RECORDS)
      || PostsWithin(c, s, sent + (if Sendable(c, s, listing[0]) then 1 else 0), listing[1..], m - 1)
  {
    hide Postable, Sendable, Sendables;
    var sent' := sent + if Sendable(c, s, listing[0]) then 1 else 0;
    NoneSendable(c, s);
    assert PostsAt(c, s, sent, listing, 0) <==> Postable(c, s, listing[0]) && sent <= SPOOL_MAX_SEND_RECORDS;
    hide PostsAt;
    if i :| 0 < i < m && PostsAt(c, s, sent, listing, i) {
      PostsAtNext(c, s, sent, listing, i);
      assert PostsAt(c, s, sent', listing[1..], i - 1);
    }
    if i :| 0 <= i < m - 1 && PostsAt(c, s, sent', listing[1..], i) {
      PostsAtNext(c, s, sent, listing, i + 1);
      assert PostsAt(c, s, sent, listing, i + 1);
    }
  }

  /** Past the limit nothing is. */
  lemma NothingPastLimit(c: Config, s: State, sent: nat, listing: seq<Input>, m: nat)
    requires m <= |listing| && sent > SPOOL_MAX_SEND_RECORDS
    ensures !PostsWithin(c, s, sent, listing, m)
  {
  }

  lemma {:induction false} RestPostsIff(c: Config, s: State, p: Pass, listing: seq<Input>)
    requires c.Valid() && IsListing(s.dir, listing) && Untouched(s, p.state, listing)
    requires 0 < p.sent && p.processed < SPOOL_MAX_PROCESS_RECORDS
    ensures SpoolPass(c, p, listing).state.log != p.state.log <==>
      PostsWithin(c, s, p.sent, listing, Min(|listing|, SPOOL_MAX_PROCESS_RECORDS - p.processed))
    decreases |listing|
  {
    hide SpoolInput, Sendable, Postable, Untouched, PostsAt;
    if listing == [] {
    } else {
      var m := Min(|listing|, SPOOL_MAX_PROCESS_RECORDS - p.processed);
      var p' := SpoolInput(c, p, listing[0]);
      InputSends(c, s, p, listing);
      InputPosts(c, s, p, listing);
      LogGrows(c, s, p', listing[1..]);
      PostsWithinFirst(c, s, p.sent, listing, m);
      if p.sent > SPOOL_MAX_SEND_RECORDS {
        NothingPastLimit(c, s, p.sent, listing, m);
        NothingPastLimit(c, s, p.sent, listing[1..], m - 1);
      }
      if p'.processed < SPOOL_MAX_PROCESS_RECORDS {
        RestPostsIff(c, s, p', listing[1..]);
      }
    }
  }

  /**
   A pass posts something exactly when, among its first 60 files, there is one that can be posted and before it at
   most 50 that count as sent; the first file must count as sent unless it is the one.
   */
  lemma PassPostsIff(c: Config, s: State, listing: seq<Input>)
    requires c.Valid() && IsListing(s.dir, listing)
    ensures SpoolPass(c, Pass(s, 0, 0), listing).state.log != s.log <==>
      && listing != []
      && (Postable(c, s, listing[0]) ||
          (Sendable(c, s, listing[0]) && PostsWithin(c, s, 0, listing, Min(|listing|, SPOOL_MAX_PROCESS_RECORDS))))
  {
    hide SpoolInput, Sendable, Postable, PostsWithin;
    if listing == [] {
    } else {
      var p, m := Pass(s, 0, 0), Min(|listing|, SPOOL_MAX_PROCESS_RECORDS);
      InputSends(c, s, p, listing);
      InputPosts(c, s, p, listing);
      LogGrows(c, s, SpoolInput(c, p, listing[0]), listing[1..]);
      PostsWithinFirst(c, s, 0, listing, m);
      if Sendable(c, s, listing[0]) {
        RestPostsIff(c, s, SpoolInput(c, p, listing[0]), listing[1..]);
      }
    }
  }

  // ---- Unreadable files ----

  /** A file that a pass tries to send, cannot read, counts as sent and leaves where it is. */
  predicate Unreadable(c: Config, f: File, now: int) {
    f.regular && f.owned && !Expired(c, f, now) && ReadSpooled(f.contents).None?
  }

  lemma UnreadableCounts(c: Config, s: State, i: Input)
    requires i.name in s.dir && Unreadable(c, s.dir[i.name], i.now)
    ensures Sendable(c, s, i) && !Postable(c, s, i)
  {
    hide ReadSpooled;
  }

  /** Behind 51 unreadable files nothing is posted, and they are not posted themselves. */
  lemma NothingBehindUnreadable(c: Config, s: State, listing: seq<Input>, i: nat)
    requires i < |listing| && IsListing(s.dir, listing) && |listing| > SPOOL_MAX_SEND_RECORDS
    requires forall k :: 0 <= k <= SPOOL_MAX_SEND_RECORDS ==> Unreadable(c, s.dir[listing[k].name], listing[k].now)
    ensures !PostsAt(c, s, 0, listing, i)
  {
    hide Unreadable, Sendable, Postable;
    if i <= SPOOL_MAX_SEND_RECORDS {
      UnreadableCounts(c, s, listing[i]);
    } else {
      forall k | 0 <= k <= SPOOL_MAX_SEND_RECORDS
        ensures Sendable(c, s, listing[k])
      {
        UnreadableCounts(c, s, listing[k]);
      }
      var m := SPOOL_MAX_SEND_RECORDS + 1;
      AllSendable(c, s, listing[..m]);
      SendablesGrow(c, s, listing[..i], m);
      assert listing[..i][..m] == listing[..m];
    }
  }

  lemma {:induction false} SendablesGrow(c: Config, s: State, listing: seq<Input>, m: nat)
    requires m <= |listing|
    ensures Sendables(c, s, listing[..m]) <= Sendables(c, s, listing)
    decreases |listing|
  {
    hide Sendable;
    if m == 0 {
      NoneSendable(c, s);
    } else {
      SendablesFirst(c, s, listing, m);
      SendablesGrow(c, s, listing[1..], m - 1);
    }
  }

  /** An unreadable file that stays fresh is still there after the pass. */
  lemma {:induction false} UnreadableStays(c: Config, p: Pass, listing: seq<Input>, n: string)
    requires c.Valid() && n in p.state.dir
    requires forall i :: 0 <= i < |listing| && listing[i].name == n ==> Unreadable(c, p.state.dir[n], listing[i].now)
    ensures var dir := SpoolPass(c, p, listing).state.dir; n in dir && dir[n] == p.state.dir[n]
    decreases |listing|
  {
    hide SpoolInput, Unreadable;
    if listing == [] {
    } else {
      InputKeepsUnreadable(c, p, listing[0], n);
      UnreadableStays(c, SpoolInput(c, p, listing[0]), listing[1..], n);
    }
  }

  lemma InputKeepsUnreadable(c: Config, p: Pass, i: Input, n: string)
    requires c.Valid() && n in p.state.dir && (i.name == n ==> Unreadable(c, p.state.dir[n], i.now))
    ensures var dir := SpoolInput(c, p, i).state.dir; n in dir && dir[n] == p.state.dir[n]
  {
    hide ReadSpooled, Received, Deducted;
    ReceivedKeeps(p.state, i.arrivals, n);
  }

  /**
   When the first 51 files of a listing are unreadable, a pass posts nothing, whatever is behind them; and they
   stay, so that the next pass over them does no better until they expire.
   */
  lemma UnreadableFilesStarve(c: Config, s: State, listing: seq<Input>)
    requires c.Valid() && IsListing(s.dir, listing) && |listing| > SPOOL_MAX_SEND_RECORDS
    requires forall i :: 0 <= i <= SPOOL_MAX_SEND_RECORDS ==> Unreadable(c, s.dir[listing[i].name], listing[i].now)
    ensures var s' := SpoolPass(c, Pass(s, 0, 0), listing).state;
      && s'.log == s.log
      && forall i :: 0 <= i <= SPOOL_MAX_SEND_RECORDS ==>
           listing[i].name in s'.dir && s'.dir[listing[i].name] == s.dir[listing[i].name]
  {
    hide SpoolPass, Unreadable, PostsAt, Postable, Sendable;
    PassPostsIff(c, s, listing);
    UnreadableCounts(c, s, listing[0]);
    forall i: nat | i < |listing|
      ensures !PostsAt(c, s, 0, listing, i)
    {
      NothingBehindUnreadable(c, s, listing, i);
    }
    var s' := SpoolPass(c, Pass(s, 0, 0), listing).state;
    forall i | 0 <= i <= SPOOL_MAX_SEND_RECORDS
      ensures listing[i].name in s'.dir && s'.dir[listing[i].name] == s.dir[listing[i].name]
    {
      UnreadableStays(c, Pass(s, 0, 0), listing, listing[i].name);
    }
  }
}
