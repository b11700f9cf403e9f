/**
 Copying a verified dump to a store that refuses overwrites (If-None-Match, section 13.1.2 of
 RFC 9110) and checks the digest, over a network that loses requests and replies.
 */
module OffsiteUpload {
  import opened Text

  type Bytes = seq<int>

  // ---------------------------------------------------------------------------------------
  // The object key

  function LastIndexOf(s: string, c: char): (i: int)
    ensures -1 <= i < |s|
    ensures i >= 0 ==> s[i] == c
    ensures forall j :: i < j < |s| ==> s[j] != c
  {
    if s == "" then -1 else if s[|s| - 1] == c then |s| - 1 else LastIndexOf(s[..|s| - 1], c)
  }

  /** What follows the last slash, as `basename` gives for a name that does not end in one. */
  function Basename(s: string): string { s[LastIndexOf(s, '/') + 1..] }

  predicate IsNameChar(c: char) { 'a' <= c <= 'z' || 'A' <= c <= 'Z' || '0' <= c <= '9' || c == '_' }

  predicate AllNameChars(s: string) { forall i :: 0 <= i < |s| ==> IsNameChar(s[i]) }

  /** The environment and date of `etg-<environment>-<YYYY-MM-DD>T...`, letters in either case. */
  function NameParts(name: string): Option<(string, string)> {
    if |name| < 4 || Lower(name[..4]) != "etg-" then None
    else
      var dash := IndexOf(name, '-', 4);
      var env := name[4..dash];
      if dash == 4 || !AllNameChars(env) || |name| < dash + 12 then None
      else
        var date := name[dash + 1..dash + 11];
        if && AllDigits(date[..4]) && date[4] == '-' && AllDigits(date[5..7]) && date[7] == '-' && AllDigits(date[8..])
           && (name[dash + 11] == 'T' || name[dash + 11] == 't')
        then Some((Lower(env), date)) else None
  }

  /** Prefix, environment, date and name, joined by slashes, empty parts left out. */
  function OffsiteKey(prefix: string, fileName: string): string {
    var name := Basename(fileName);
    var parts := NameParts(name);
    var folder := if parts.Some? then parts.value.0 + "/" + parts.value.1 else "unknown/undated";
    var path := if name == "" then folder else folder + "/" + name;
    if prefix == "" then path else prefix + "/" + path
  }

  lemma LastSlash(s: string, i: int)
    requires -1 <= i < |s| && (i >= 0 ==> s[i] == '/') && forall j :: i < j < |s| ==> s[j] != '/'
    ensures LastIndexOf(s, '/') == i
  {
    var k := LastIndexOf(s, '/');
    assert k <= i;
    assert i <= k;
  }

  lemma BasenameHasNoSlash(s: string)
    ensures '/' !in Basename(s)
  {
  }

  /** The name can be read off the key, so different names never share a key. */
  lemma KeyEndsWithName(prefix: string, fileName: string)
    requires Basename(fileName) != ""
    ensures Basename(OffsiteKey(prefix, fileName)) == Basename(fileName)
  {
    hide NameParts, Basename;
    var name := Basename(fileName);
    BasenameHasNoSlash(fileName);
    var parts := NameParts(name);
    var folder := if parts.Some? then parts.value.0 + "/" + parts.value.1 else "unknown/undated";
    var front := if prefix == "" then folder else prefix + "/" + folder;
    assert OffsiteKey(prefix, fileName) == front + "/" + name;
    BasenameOfJoined(front, name);
  }

  lemma BasenameOfJoined(front: string, name: string)
    requires '/' !in name
    ensures Basename(front + "/" + name) == name
  {
    var s := front + "/" + name;
    assert forall j :: |front| < j < |s| ==> s[j] == name[j - |front| - 1];
    LastSlash(s, |front|);
    assert s[|front| + 1..] == name;
  }

  /** `etg-`, letters in either case, an environment, a date, a `T` in either case, and anything. */
  ghost predicate Stamped(name: string, tag: string, env: string, date: string, mark: char, rest: string) {
    && name == tag + env + "-" + date + [mark] + rest
    && |tag| == 4 && Lower(tag) == "etg-" && env != "" && AllNameChars(env) && (mark == 'T' || mark == 't')
    && IsDateText(date)
  }

  ghost predicate IsDateText(date: string) {
    && |date| == 10 && date[4] == date[7] == '-'
    && forall i :: 0 <= i < 10 && i != 4 && i != 7 ==> '0' <= date[i] <= '9'
  }

  lemma StampIsRead(name: string, tag: string, env: string, date: string, mark: char, rest: string)
    requires Stamped(name, tag, env, date, mark, rest)
    ensures NameParts(name) == Some((Lower(env), date))
  {
    var dash := 4 + |env|;
    assert name[..4] == tag && name[4..dash] == env && name[dash] == '-';
    forall j | 4 <= j < dash ensures name[j] != '-' { assert name[j] == env[j - 4]; }
    assert IndexOf(name, '-', 4) == dash;
    assert name[dash + 1..dash + 11] == date && name[dash + 11] == mark;
    DigitsOfDate(date);
  }

  lemma DigitsOfDate(date: string)
    requires IsDateText(date)
    ensures AllDigits(date[..4]) && AllDigits(date[5..7]) && AllDigits(date[8..])
  {
    assert forall i :: 0 <= i < 4 ==> date[..4][i] == date[i];
    assert forall i :: 0 <= i < 2 ==> date[5..7][i] == date[5 + i];
    assert forall i :: 0 <= i < 2 ==> date[8..][i] == date[8 + i];
  }

  lemma ReadIsStamp(name: string) returns (tag: string, env: string, date: string, mark: char, rest: string)
    requires NameParts(name).Some?
    ensures Stamped(name, tag, env, date, mark, rest)
  {
    var dash := IndexOf(name, '-', 4);
    tag, env, date, mark, rest :=
      name[..4], name[4..dash], name[dash + 1..dash + 11], name[dash + 11], name[dash + 12..];
    assert name == tag + env + "-" + date + [mark] + rest;
    DateTextOf(date);
  }

  lemma DateTextOf(date: string)
    requires |date| == 10 && date[4] == date[7] == '-'
    requires AllDigits(date[..4]) && AllDigits(date[5..7]) && AllDigits(date[8..])
    ensures IsDateText(date)
  {
    assert forall i :: 0 <= i < 4 ==> date[..4][i] == date[i];
    assert forall i :: 5 <= i < 7 ==> date[5..7][i - 5] == date[i];
    assert forall i :: 8 <= i < 10 ==> date[8..][i - 8] == date[i];
  }

  ghost predicate IsStamped(name: string) {
    exists tag, env, date, mark, rest :: Stamped(name, tag, env, date, mark, rest)
  }

  /** A dump's key, in any directory and under any prefix: its environment in lower case, its date and its name. */
  lemma KeyOfDump(prefix: string, directory: string, name: string, env: string, date: string)
    requires '/' !in name && exists tag, mark, rest :: Stamped(name, tag, env, date, mark, rest)
    ensures OffsiteKey(prefix, directory + "/" + name) == OffsiteKey(prefix, name)
    ensures OffsiteKey(prefix, name) ==
              (if prefix == "" then "" else prefix + "/") + Lower(env) + "/" + date + "/" + name
  {
    hide NameParts, Basename, IsDateText, Lower;
    BasenameOfJoined(directory, name);
    PlainBasename(name);
    var tag, mark, rest :| Stamped(name, tag, env, date, mark, rest);
    StampIsRead(name, tag, env, date, mark, rest);
    assert name != "";
    JoinsUp(prefix + "/", Lower(env), date, name);
  }

  lemma JoinsUp(front: string, a: string, b: string, name: string)
    ensures front + (a + "/" + b + "/" + name) == front + a + "/" + b + "/" + name
    ensures "" + a + "/" + b + "/" + name == a + "/" + b + "/" + name
  {
  }

  /** Every other name is kept under `unknown/undated`. */
  lemma KeyOfOther(prefix: string, directory: string, name: string)
    requires '/' !in name && name != "" && !IsStamped(name)
    ensures OffsiteKey(prefix, directory + "/" + name) == OffsiteKey(prefix, name)
    ensures OffsiteKey(prefix, name) == (if prefix == "" then "" else prefix + "/") + "unknown/undated/" + name
  {
    hide NameParts, Basename, Stamped;
    BasenameOfJoined(directory, name);
    PlainBasename(name);
    if NameParts(name).Some? {
      var tag, env, date, mark, rest := ReadIsStamp(name);
      assert false;
    }
    assert prefix != "" ==> prefix + "/" + ("unknown/undated" + "/" + name) == prefix + "/" + "unknown/undated/" + name;
    assert "unknown/undated" + "/" + name == "unknown/undated/" + name;
  }

  lemma PlainBasename(name: string)
    requires '/' !in name
    ensures Basename(name) == name
  {
    LastSlash(name, -1);
  }

  // ---------------------------------------------------------------------------------------
  // The network and the store

  /**
   One send. It is refused or lost before the store acts (with an HTTP status or none), or the store
   handles it with the bytes intact or not, and its reply is seen, or lost and replaced by some
   other failure. A 412 comes from the store alone.
   */
  datatype Net = NotHandled(http: Option<nat>) | Handled(intact: bool, replyLost: bool, http: Option<nat>)

  predicate IsNet(n: Net) { n.http != Some(412) }

  datatype Reply = Success | PreconditionFailed | Failure(http: Option<nat>)

  /** The store: refuse an existing key, refuse a wrong digest, else keep the object. */
  function Store(store: map<string, Bytes>, key: string, body: Bytes, n: Net): map<string, Bytes> {
    if n.Handled? && n.intact && key !in store then store[key := body] else store
  }

  function Seen(store: map<string, Bytes>, key: string, n: Net): Reply {
    if n.NotHandled? || n.replyLost then Failure(n.http)
    else if key in store then PreconditionFailed
    else if n.intact then Success
    else Failure(Some(400))
  }

  predicate Permanent(http: Option<nat>) {
    http.Some? && 400 <= http.value < 500 && http.value != 408 && http.value != 429
  }

  // ---------------------------------------------------------------------------------------
  // One call

  const ATTEMPTS := 3

  datatype Outcome = Disabled | Uploaded | Exists | Failed

  /** `tried` are the dumps whose evidence row a call tried to write, `evidence` the rows left. */
  datatype Site = Site(store: map<string, Bytes>, sends: nat, tried: seq<string>, evidence: seq<string>)

  /** `recordOpsEvidence`: best effort, and nobody looks at whether the row was written. */
  function Record(s: Site, name: string, writes: bool): Site {
    s.(tried := s.tried + [name], evidence := s.evidence + if writes then [name] else [])
  }

  /** The attempts from number `k` on. `writes` is whether the database takes the evidence row. */
  function Attempts(s: Site, key: string, name: string, body: Bytes, net: nat -> Net, writes: bool, k: nat)
    : (Outcome, Site)
    requires 1 <= k <= ATTEMPTS
    decreases ATTEMPTS - k
  {
    var reply := Seen(s.store, key, net(k));
    var after := s.(store := Store(s.store, key, body, net(k)), sends := s.sends + 1);
    match reply
    case Success => (Uploaded, Record(after, name, writes))
    case PreconditionFailed => (Exists, after)
    case Failure(http) =>
      if Permanent(http) || k == ATTEMPTS then (Failed, after)
      else Attempts(after, key, name, body, net, writes, k + 1)
  }

  /**
   `uploadOffsite`, which always resolves: `prefix` is nothing when the feature is off, `body` when the file
   cannot be read.
   */
  function Upload(s: Site, prefix: Option<string>, name: string, body: Option<Bytes>, net: nat -> Net, writes: bool)
    : (Outcome, Site)
  {
    if prefix.None? then (Disabled, s)
    else if body.None? then (Failed, s)
    else Attempts(s, OffsiteKey(prefix.value, name), name, body.value, net, writes, 1)
  }

  class Uploader {
    var site: Site

    constructor (s: Site)
      ensures site == s
    {
      site := s;
    }

    method RecordEvidence(name: string, writes: bool)
      modifies this
      ensures site == Record(old(site), name, writes)
    {
      site := site.(tried := site.tried + [name]);
      if writes { site := site.(evidence := site.evidence + [name]); }
    }

    method UploadOffsite(prefix: Option<string>, name: string, body: Option<Bytes>, net: nat -> Net, writes: bool)
      returns (status: Outcome)
      modifies this
      ensures (status, site) == Upload(old(site), prefix, name, body, net, writes)
    {
      if prefix.None? { return Disabled; }
      var key := OffsiteKey(prefix.value, name);
      if body.None? { return Failed; }
      ghost var whole := Attempts(site, key, name, body.value, net, writes, 1);
      var attempt := 1;
      while attempt <= ATTEMPTS
        invariant 1 <= attempt <= ATTEMPTS
        invariant Attempts(site, key, name, body.value, net, writes, attempt) == whole
        decreases ATTEMPTS - attempt
      {
        var reply := Seen(site.store, key, net(attempt));
        site := site.(store := Store(site.store, key, body.value, net(attempt)), sends := site.sends + 1);
        if reply == Success {
          RecordEvidence(name, writes);
          return Uploaded;
        }
        if reply == PreconditionFailed {
          return Exists;
        }
        if Permanent(reply.http) || attempt == ATTEMPTS { break; }
        attempt := attempt + 1;
      }
      status := Failed;
    }
  }

  // ---------------------------------------------------------------------------------------
  // One call's promises

  /** An object once present never changes. */
  ghost predicate Keeps(a: map<string, Bytes>, b: map<string, Bytes>) { forall k :: k in a ==> k in b && b[k] == a[k] }

  /** A call tries to write evidence exactly on `Uploaded`, and leaves a row exactly when the write succeeds too. */
  predicate EvidenceOf(s: Site, t: Site, status: Outcome, name: string, writes: bool) {
    && t.tried == s.tried + (if status == Uploaded then [name] else [])
    && t.evidence == s.evidence + (if status == Uploaded && writes then [name] else [])
  }

  /** Nothing in the store changes but possibly the one key, which can only gain this body. */
  predicate StoreOf(s: Site, t: Site, key: string, body: Bytes) {
    t.store == s.store || (key !in s.store && t.store == s.store[key := body])
  }

  lemma SendOnce(s: Site, key: string, body: Bytes, n: Net)
    requires IsNet(n)
    ensures var t := s.(store := Store(s.store, key, body, n), sends := s.sends + 1);
            && StoreOf(s, t, key, body)
            && (Seen(s.store, key, n) == Success ==> key !in s.store && key in t.store)
            && (Seen(s.store, key, n) == PreconditionFailed ==> key in s.store)
  {
  }

  /**
   From attempt `k` on: at most the attempts left are sent; only the one key may change; evidence is
   tried exactly on `Uploaded`; and after `Uploaded` or `Exists` the key is present.
   */
  lemma {:induction false} AttemptsAreSafe(s: Site, key: string, name: string, body: Bytes, net: nat -> Net,
                                           writes: bool, k: nat)
    requires 1 <= k <= ATTEMPTS && forall i :: IsNet(net(i))
    ensures var (status, t) := Attempts(s, key, name, body, net, writes, k);
            && StoreOf(s, t, key, body) && EvidenceOf(s, t, status, name, writes)
            && s.sends < t.sends <= s.sends + (ATTEMPTS - k + 1)
            && (status == Uploaded || status == Exists ==> key in t.store)
            && (status == Uploaded ==> key !in s.store)
            && status != Disabled
    decreases ATTEMPTS - k
  {
    hide Store, Seen;
    SendOnce(s, key, body, net(k));
    var after := s.(store := Store(s.store, key, body, net(k)), sends := s.sends + 1);
    if Seen(s.store, key, net(k)).Failure? && !Permanent(Seen(s.store, key, net(k)).http) && k < ATTEMPTS {
      AttemptsAreSafe(after, key, name, body, net, writes, k + 1);
    }
  }

  /** The same for a whole call, whatever the network and the database do. */
  lemma UploadIsSafe(s: Site, prefix: Option<string>, name: string, body: Option<Bytes>, net: nat -> Net, writes: bool)
    requires forall i :: IsNet(net(i))
    ensures var (status, t) := Upload(s, prefix, name, body, net, writes);
            && Keeps(s.store, t.store) && t.sends <= s.sends + 3
            && EvidenceOf(s, t, status, name, writes)
            && (status == Disabled <==> prefix.None?)
            && (prefix.Some? && body.Some? ==>
                  var key := OffsiteKey(prefix.value, name);
                  && (t.store == s.store || t.store == s.store[key := body.value])
                  && (status == Uploaded || status == Exists ==> key in t.store))
            && (prefix.None? || body.None? ==> t == s)
  {
    hide OffsiteKey, Attempts;
    if prefix.Some? && body.Some? {
      AttemptsAreSafe(s, OffsiteKey(prefix.value, name), name, body.value, net, writes, 1);
    }
  }

  /** No reply was seen, and no status that says the request itself was wrong. */
  ghost predicate Retried(n: Net) {
    (n.NotHandled? || n.replyLost)
    && (n.http.None? || n.http.value < 400 || n.http.value > 499 || n.http.value in {408, 429})
  }

  /** The send a call ends with: the first that is not retried, the third at the latest. */
  ghost function LastSend(net: nat -> Net): (n: nat) {
    if !Retried(net(1)) then 1 else if !Retried(net(2)) then 2 else 3
  }

  /** The object is there before send `n`: it was before the call, or an earlier send brought it. */
  ghost predicate There(store: map<string, Bytes>, key: string, net: nat -> Net, n: nat) {
    key in store || exists i :: 1 <= i < n && net(i).Handled? && net(i).intact
  }

  /** How often a call sends and what it answers, for every network: the reply to its last send decides. */
  lemma AnswerExactly(s: Site, key: string, name: string, body: Bytes, net: nat -> Net, writes: bool)
    requires forall i :: IsNet(net(i))
    ensures var (status, t) := Attempts(s, key, name, body, net, writes, 1);
            var n := LastSend(net);
            var seen := net(n).Handled? && !net(n).replyLost;
            && t.sends == s.sends + n
            && (status == Exists <==> seen && There(s.store, key, net, n))
            && (status == Uploaded <==> seen && !There(s.store, key, net, n) && net(n).intact)
            && (status == Failed <==> !seen || (!There(s.store, key, net, n) && !net(n).intact))
  {
    hide Seen, Store;
    var n := LastSend(net);
    OneSend(s, key, name, body, net, writes, 1);
    if n >= 2 {
      var after1 := s.(store := Store(s.store, key, body, net(1)), sends := s.sends + 1);
      OneSend(after1, key, name, body, net, writes, 2);
      if n == 3 {
        var after2 := after1.(store := Store(after1.store, key, body, net(2)), sends := after1.sends + 1);
        OneSend(after2, key, name, body, net, writes, 3);
      }
    }
  }

  /** Send `k` is the call's last, with the answer its reply gives, or the call goes on as a call from `k + 1`. */
  lemma OneSend(s: Site, key: string, name: string, body: Bytes, net: nat -> Net, writes: bool, k: nat)
    requires 1 <= k <= ATTEMPTS && IsNet(net(k))
    ensures var after := s.(store := Store(s.store, key, body, net(k)), sends := s.sends + 1);
            var (status, t) := Attempts(s, key, name, body, net, writes, k);
            var seen := net(k).Handled? && !net(k).replyLost;
            && (key in after.store <==> key in s.store || (net(k).Handled? && net(k).intact))
            && (Retried(net(k)) && k < ATTEMPTS ==>
                  (status, t) == Attempts(after, key, name, body, net, writes, k + 1))
            && (!Retried(net(k)) || k == ATTEMPTS ==>
                  && t.sends == s.sends + 1
                  && (status == Exists <==> seen && key in s.store)
                  && (status == Uploaded <==> seen && key !in s.store && net(k).intact)
                  && (status == Failed <==> !seen || (key !in s.store && !net(k).intact)))
  {
  }

  // ---------------------------------------------------------------------------------------
  // Many calls

  /** Dumps never change: `content` is each dump's bytes by its file name. */
  datatype Call = Call(name: string, readable: bool, net: nat -> Net, writes: bool)

  function BodyOf(c: Call, content: string -> Bytes): Option<Bytes> {
    if c.readable then Some(content(Basename(c.name))) else None
  }

  function AfterCalls(s: Site, prefix: string, calls: seq<Call>, content: string -> Bytes): Site {
    if calls == [] then s
    else
      var c := calls[|calls| - 1];
      var before := AfterCalls(s, prefix, calls[..|calls| - 1], content);
      Upload(before, Some(prefix), c.name, BodyOf(c, content), c.net, c.writes).1
  }

  /** Whatever is stored under a dump's key is that dump. */
  ghost predicate HoldsDumps(store: map<string, Bytes>, prefix: string, content: string -> Bytes) {
    forall name :: Basename(name) != "" && OffsiteKey(prefix, name) in store ==>
      store[OffsiteKey(prefix, name)] == content(Basename(name))
  }

  ghost predicate GoodCall(c: Call) { Basename(c.name) != "" && forall i :: IsNet(c.net(i)) }

  lemma UploadHoldsDumps(s: Site, prefix: string, c: Call, content: string -> Bytes)
    requires HoldsDumps(s.store, prefix, content) && GoodCall(c)
    ensures var t := Upload(s, Some(prefix), c.name, BodyOf(c, content), c.net, c.writes).1;
            HoldsDumps(t.store, prefix, content)
  {
    hide OffsiteKey, Basename, Upload;
    UploadIsSafe(s, Some(prefix), c.name, BodyOf(c, content), c.net, c.writes);
    var t := Upload(s, Some(prefix), c.name, BodyOf(c, content), c.net, c.writes).1;
    forall name | Basename(name) != "" && OffsiteKey(prefix, name) in t.store
      ensures t.store[OffsiteKey(prefix, name)] == content(Basename(name))
    {
      KeyEndsWithName(prefix, name);
      KeyEndsWithName(prefix, c.name);
      if OffsiteKey(prefix, name) in s.store {
        assert t.store[OffsiteKey(prefix, name)] == s.store[OffsiteKey(prefix, name)];
      }
    }
  }

  /** Over any calls an object once present never changes, and the store holds the right dumps. */
  lemma {:induction false} CallsAreSafe(s: Site, prefix: string, calls: seq<Call>, content: string -> Bytes)
    requires HoldsDumps(s.store, prefix, content)
    requires forall i :: 0 <= i < |calls| ==> GoodCall(calls[i])
    ensures var t := AfterCalls(s, prefix, calls, content);
            Keeps(s.store, t.store) && HoldsDumps(t.store, prefix, content) && t.sends <= s.sends + 3 * |calls|
    decreases |calls|
  {
    hide Upload, HoldsDumps, Basename, IsNet;
    if calls != [] {
      var n := |calls| - 1;
      var c := calls[n];
      CallsAreSafe(s, prefix, calls[..n], content);
      var before := AfterCalls(s, prefix, calls[..n], content);
      UploadHoldsDumps(before, prefix, c, content);
      UploadIsSafe(before, Some(prefix), c.name, BodyOf(c, content), c.net, c.writes);
    }
  }

  /** After any calls, a call that answers `uploaded` or `exists` leaves its own dump under its own key. */
  lemma AnswerMeansStored(s: Site, prefix: string, calls: seq<Call>, content: string -> Bytes, c: Call)
    requires HoldsDumps(s.store, prefix, content)
    requires forall i :: 0 <= i < |calls| ==> GoodCall(calls[i])
    requires GoodCall(c)
    ensures var before := AfterCalls(s, prefix, calls, content);
            var (status, t) := Upload(before, Some(prefix), c.name, BodyOf(c, content), c.net, c.writes);
            var key := OffsiteKey(prefix, c.name);
            status == Uploaded || status == Exists ==> key in t.store && t.store[key] == content(Basename(c.name))
  {
    hide OffsiteKey, Basename, Upload, IsNet;
    CallsAreSafe(s, prefix, calls, content);
    var before := AfterCalls(s, prefix, calls, content);
    UploadHoldsDumps(before, prefix, c, content);
    UploadIsSafe(before, Some(prefix), c.name, BodyOf(c, content), c.net, c.writes);
    if !c.readable { UnreadableFails(before, prefix, c, content); }
  }

  lemma UnreadableFails(s: Site, prefix: string, c: Call, content: string -> Bytes)
    requires !c.readable
    ensures Upload(s, Some(prefix), c.name, BodyOf(c, content), c.net, c.writes) == (Failed, s)
  {
  }

  // ---------------------------------------------------------------------------------------
  // Lost acknowledgements and lost rows

  /** Attempt `i` left the store as it was and allowed another. */
  predicate Missed(n: Net) {
    !(n.Handled? && n.intact) && !Permanent(if n.NotHandled? || n.replyLost then n.http else Some(400))
  }

  /**
   When attempt `j` is the first to reach the store intact under a free key, the dump is stored; the
   call answers `uploaded`, and tries to leave evidence, exactly when that very reply is seen; and a row
   is left exactly when the database then takes it. Otherwise there is an object without evidence.
   */
  lemma {:induction false} EvidenceExactlyWhenSeen(s: Site, key: string, name: string, body: Bytes, net: nat -> Net,
                                                   writes: bool, k: nat, j: nat)
    requires 1 <= k <= j <= ATTEMPTS && key !in s.store
    requires forall i :: IsNet(net(i))
    requires forall i :: k <= i < j ==> Missed(net(i))
    requires net(j).Handled? && net(j).intact
    ensures var (status, t) := Attempts(s, key, name, body, net, writes, k);
            && t.store == s.store[key := body]
            && (status == Uploaded <==> !net(j).replyLost)
            && (t.tried == s.tried + [name] <==> !net(j).replyLost)
            && (t.evidence == s.evidence + [name] <==> !net(j).replyLost && writes)
            && (t.evidence == s.evidence <==> net(j).replyLost || !writes)
    decreases j - k
  {
    var after := s.(store := Store(s.store, key, body, net(k)), sends := s.sends + 1);
    if k < j {
      assert Missed(net(k));
      EvidenceExactlyWhenSeen(after, key, name, body, net, writes, k + 1, j);
    } else if k < ATTEMPTS {
      AttemptsAreSafe(after, key, name, body, net, writes, k + 1);
    }
  }

  /** It happens: the first reply is lost, and the retry is told that the object exists. */
  lemma LostReplyThenExists(s: Site, key: string, name: string, body: Bytes, net: nat -> Net, writes: bool)
    requires key !in s.store && net(1) == Handled(true, true, None) && net(2) == Handled(true, false, None)
    ensures var (status, t) := Attempts(s, key, name, body, net, writes, 1);
            status == Exists && t.store == s.store[key := body] && t.evidence == s.evidence && t.tried == s.tried
  {
  }

  /** It also happens with the reply seen: the call answers `uploaded`, and the row is lost in the database. */
  lemma UploadedWithoutRow(s: Site, key: string, name: string, body: Bytes, net: nat -> Net)
    requires key !in s.store && net(1) == Handled(true, false, None)
    ensures var (status, t) := Attempts(s, key, name, body, net, false, 1);
            status == Uploaded && t.store == s.store[key := body] && t.evidence == s.evidence
            && t.tried == s.tried + [name]
  {
  }
}
