/**
 The pre-authentication integrity hash of an SMB 3.1.1 connection (sections 3.3.5.4 and
 3.3.5.5 of MS-SMB2): which messages the connection loop feeds to it, and what value
 the signing-key derivation receives.
 */
module Preauth {
  import opened Bytes
  import opened Wrappers

  type Message = seq<byte>

  /** SHA-512, or any other function with 64-byte results. */
  type Digest = s: seq<byte> | |s| == 64 witness Zeros(64)
  type HashFunction = seq<byte> -> Digest

  const SMB3_1_1: nat := 0x0311

  /**
   One request with its response, as the connection loop sees them.
   A NEGOTIATE that fails, or that upgrades an SMB1 client, selects no dialect.
   */
  datatype Exchange =
    | Negotiate(request: Message, selected: Option<nat>, response: Message)
    | SessionSetup(request: Message, success: bool, response: Message)
    | Logoff(success: bool)
    | Other

  datatype Conn = Conn(dialect: nat, sessionValid: bool, hash: seq<byte>)

  const FRESH: Conn := Conn(0, false, [])

  function Update(h: HashFunction, current: seq<byte>, m: Message): Digest {
    h((if |current| == 0 then Zeros(64) else current) + m)
  }

  // ---- One turn of the connection loop ----

  /** Before the handler runs: the request is hashed. */
  function HashRequest(h: HashFunction, c: Conn, x: Exchange): Conn {
    match x
    case Negotiate(request, _, _) => c.(hash := Update(h, c.hash, request))
    case SessionSetup(request, _, _) =>
      if c.dialect >= SMB3_1_1 && !c.sessionValid then c.(hash := Update(h, c.hash, request)) else c
    case _ => c
  }

  /** What the handlers do to the connection. */
  function Handle(c: Conn, x: Exchange): Conn {
    match x
    case Negotiate(_, Some(d), _) => c.(sessionValid := false, dialect := d)
    case SessionSetup(_, true, _) => c.(sessionValid := true)
    case Logoff(true) => c.(sessionValid := false)
    case _ => c
  }

  /** After the response is written: unless it is a SESSION_SETUP success, it is hashed too. */
  function HashResponse(h: HashFunction, c: Conn, x: Exchange): Conn {
    if c.dialect < SMB3_1_1 then c
    else
      match x
      case Negotiate(_, _, response) => c.(hash := Update(h, c.hash, response))
      case SessionSetup(_, false, response) => c.(hash := Update(h, c.hash, response))
      case _ => c
  }

  function Turn(h: HashFunction, c: Conn, x: Exchange): Conn {
    HashResponse(h, Handle(HashRequest(h, c, x), x), x)
  }

  function Run(h: HashFunction, xs: seq<Exchange>): Conn {
    if xs == [] then FRESH else Turn(h, Run(h, xs[..|xs| - 1]), xs[|xs| - 1])
  }

  /** The hash a successful SESSION_SETUP hands to the key derivation. */
  function DerivationHash(h: HashFunction, c: Conn, x: Exchange): seq<byte> {
    HashRequest(h, c, x).hash
  }

  /** The loop of one connection, with the state it updates in place. */
  class Connection {
    const h: HashFunction
    var dialect: nat
    var sessionValid: bool
    var preauthHash: seq<byte>

    ghost function State(): Conn
      reads this
    {
      Conn(dialect, sessionValid, preauthHash)
    }

    constructor (h: HashFunction)
      ensures State() == FRESH && this.h == h
    {
      this.h, dialect, sessionValid, preauthHash := h, 0, false, [];
    }

    /** Serves one exchange; `key` is the hash the handler derived a signing key from, if it did. */
    method Serve(x: Exchange) returns (key: Option<seq<byte>>)
      modifies this
      ensures State() == Turn(h, old(State()), x)
      ensures key == if x.SessionSetup? && x.success then Some(DerivationHash(h, old(State()), x)) else None
    {
      key := None;
      if dialect >= SMB3_1_1 || x.Negotiate? {
        if x.Negotiate? || (x.SessionSetup? && !sessionValid) {
          preauthHash := Update(h, preauthHash, x.request);
        }
      }
      match x {
        case Negotiate(_, Some(d), _) => sessionValid, dialect := false, d;
        case SessionSetup(_, true, _) => key, sessionValid := Some(preauthHash), true;
        case Logoff(true) => sessionValid := false;
        case _ =>
      }
      if dialect >= SMB3_1_1 {
        if x.Negotiate? || (x.SessionSetup? && !x.success) {
          preauthHash := Update(h, preauthHash, x.response);
        }
      }
    }

    /** Serves a whole connection up to and including `last`. */
    method ServeAll(xs: seq<Exchange>, last: Exchange) returns (key: Option<seq<byte>>)
      requires State() == FRESH
      requires last.SessionSetup? && last.success && Unauthenticated(xs) && AllDecide311(xs)
      requires DialectAfter(xs) >= SMB3_1_1
      modifies this
      ensures key == Some(Chain(h, Transcript(xs) + [last.request]))
    {
      for i := 0 to |xs|
        invariant State() == Run(h, xs[..i])
      {
        assert xs[..i + 1][..i] == xs[..i];
        var _ := Serve(xs[i]);
      }
      assert xs[..|xs|] == xs;
      key := Serve(last);
      DerivesFromTranscript(h, xs, last);
    }
  }

  // ---- The transcript ----

  /** H_0 = 64 zero bytes; H_i = H(H_(i-1) || M_i). */
  function Chain(h: HashFunction, ms: seq<Message>): Digest {
    if ms == [] then Zeros(64) else h(Chain(h, ms[..|ms| - 1]) + ms[|ms| - 1])
  }

  /** Every NEGOTIATE and SESSION_SETUP message of an exchange that did not authenticate. */
  function Messages(x: Exchange): seq<Message> {
    match x
    case Negotiate(request, _, response) => [request, response]
    case SessionSetup(request, success, response) => if success then [request] else [request, response]
    case _ => []
  }

  function Transcript(xs: seq<Exchange>): seq<Message> {
    if xs == [] then [] else Transcript(xs[..|xs| - 1]) + Messages(xs[|xs| - 1])
  }

  predicate Unauthenticated(xs: seq<Exchange>) {
    forall i :: 0 <= i < |xs| ==> !(xs[i].SessionSetup? && xs[i].success)
  }

  /** The dialect in force after each prefix of a connection. */
  function DialectAfter(xs: seq<Exchange>): nat {
    if xs == [] then 0
    else
      var x := xs[|xs| - 1];
      if x.Negotiate? && x.selected.Some? then x.selected.value else DialectAfter(xs[..|xs| - 1])
  }

  /** Every NEGOTIATE or SESSION_SETUP leaves the connection at dialect 3.1.1. */
  predicate AllDecide311(xs: seq<Exchange>) {
    xs == [] ||
    (AllDecide311(xs[..|xs| - 1]) &&
     (xs[|xs| - 1].Negotiate? || xs[|xs| - 1].SessionSetup? ==> DialectAfter(xs) >= SMB3_1_1))
  }

  /** Is the connection's session valid after each prefix? */
  predicate ValidAfter(xs: seq<Exchange>) {
    xs != [] &&
    var x := xs[|xs| - 1];
    match x
    case SessionSetup(_, true, _) => true
    case Negotiate(_, Some(_), _) => false
    case Logoff(true) => false
    case _ => ValidAfter(xs[..|xs| - 1])
  }

  /** What one exchange adds: the request is judged by the session before it, the response by its status. */
  function Fed(x: Exchange, dialect: nat, valid: bool): seq<Message> {
    match x
    case Negotiate(request, _, response) => if dialect >= SMB3_1_1 then [request, response] else [request]
    case SessionSetup(request, success, response) =>
      if dialect < SMB3_1_1 then []
      else (if valid then [] else [request]) + (if success then [] else [response])
    case _ => []
  }

  /** The messages the loop really hashes. */
  function Hashed(xs: seq<Exchange>): seq<Message> {
    if xs == [] then []
    else Hashed(xs[..|xs| - 1]) + Fed(xs[|xs| - 1], DialectAfter(xs), ValidAfter(xs[..|xs| - 1]))
  }

  /** Every NEGOTIATE and SESSION_SETUP is at dialect 3.1.1, and no SESSION_SETUP comes while a session is valid. */
  predicate Complete(xs: seq<Exchange>) {
    xs == [] ||
    var init, x := xs[..|xs| - 1], xs[|xs| - 1];
    && Complete(init)
    && (x.Negotiate? || x.SessionSetup? ==> DialectAfter(xs) >= SMB3_1_1)
    && (x.SessionSetup? ==> !ValidAfter(init))
  }

  lemma ChainSnoc(h: HashFunction, ms: seq<Message>, m: Message)
    ensures Chain(h, ms + [m]) == h(Chain(h, ms) + m)
  {
  }

  ghost predicate Tracks(h: HashFunction, hash: seq<byte>, ms: seq<Message>) {
    hash == (if ms == [] then [] else Chain(h, ms))
  }

  lemma UpdateTracks(h: HashFunction, hash: seq<byte>, ms: seq<Message>, m: Message)
    requires Tracks(h, hash, ms)
    ensures Tracks(h, Update(h, hash, m), ms + [m])
  {
  }

  lemma HashTwo(h: HashFunction, hash: seq<byte>, ms: seq<Message>, a: Message, b: Message)
    requires Tracks(h, hash, ms)
    ensures Tracks(h, Update(h, Update(h, hash, a), b), ms + [a, b])
  {
    hide Update, Tracks;
    UpdateTracks(h, hash, ms, a);
    UpdateTracks(h, Update(h, hash, a), ms + [a], b);
    assert ms + [a] + [b] == ms + [a, b];
  }

  /** One turn adds exactly the messages it feeds. */
  lemma TurnFeeds(h: HashFunction, c: Conn, ms: seq<Message>, x: Exchange)
    requires Tracks(h, c.hash, ms)
    ensures var c' := Turn(h, c, x); Tracks(h, c'.hash, ms + Fed(x, c'.dialect, c.sessionValid))
  {
    hide Update, Tracks;
    match x
    case Negotiate(request, _, response) =>
      UpdateTracks(h, c.hash, ms, request);
      HashTwo(h, c.hash, ms, request, response);
    case SessionSetup(request, success, response) =>
      UpdateTracks(h, c.hash, ms, request);
      UpdateTracks(h, c.hash, ms, response);
      HashTwo(h, c.hash, ms, request, response);
      assert [] + [response] == [response] && [request] + [response] == [request, response];
      assert [request] + [] == [request] && ms + [] == ms && ms + ([] + []) == ms;
    case _ =>
      assert ms + [] == ms;
  }

  lemma TurnState(h: HashFunction, c: Conn, xs: seq<Exchange>)
    requires xs != [] && c.dialect == DialectAfter(xs[..|xs| - 1]) && c.sessionValid == ValidAfter(xs[..|xs| - 1])
    ensures var c' := Turn(h, c, xs[|xs| - 1]); c'.dialect == DialectAfter(xs) && c'.sessionValid == ValidAfter(xs)
  {
  }

  /** The state of the loop at any moment of any connection: the hash is the chain over the messages fed so far. */
  lemma {:induction false} RunState(h: HashFunction, xs: seq<Exchange>)
    ensures var c := Run(h, xs);
            c.dialect == DialectAfter(xs) && c.sessionValid == ValidAfter(xs) && Tracks(h, c.hash, Hashed(xs))
  {
    if xs != [] {
      hide Turn, Fed, Tracks;
      var init, x := xs[..|xs| - 1], xs[|xs| - 1];
      RunState(h, init);
      TurnState(h, Run(h, init), xs);
      TurnFeeds(h, Run(h, init), Hashed(init), x);
    } else {
      var none: seq<Exchange> := [];
      assert Hashed(none) == [];
    }
  }

  lemma FedIsShorter(x: Exchange, dialect: nat, valid: bool)
    ensures |Fed(x, dialect, valid)| <= |Messages(x)|
    ensures Fed(x, dialect, valid) == Messages(x) <==> |Fed(x, dialect, valid)| == |Messages(x)|
    ensures |Fed(x, dialect, valid)| == |Messages(x)| <==>
            (x.Negotiate? || x.SessionSetup? ==> dialect >= SMB3_1_1) && (x.SessionSetup? ==> !valid)
  {
  }

  lemma {:induction false} HashedLengths(xs: seq<Exchange>)
    ensures |Hashed(xs)| <= |Transcript(xs)|
  {
    if xs != [] {
      hide Fed, Messages;
      HashedLengths(xs[..|xs| - 1]);
      FedIsShorter(xs[|xs| - 1], DialectAfter(xs), ValidAfter(xs[..|xs| - 1]));
    }
  }

  lemma SplitEqual(a: seq<Message>, b: seq<Message>, c: seq<Message>, d: seq<Message>)
    requires |a| <= |c| && |b| <= |d|
    ensures a + b == c + d <==> a == c && b == d
  {
    if a + b == c + d {
      assert |a| == |c| && |b| == |d|;
      assert a == (a + b)[..|a|] && c == (c + d)[..|a|];
      assert b == (a + b)[|a|..] && d == (c + d)[|a|..];
    }
  }

  /** The loop hashes the whole transcript exactly on complete connections, however often they authenticate. */
  lemma {:induction false} HashedIsTranscriptIff(xs: seq<Exchange>)
    ensures Hashed(xs) == Transcript(xs) <==> Complete(xs)
  {
    if xs != [] {
      hide Fed, Messages;
      var init, x := xs[..|xs| - 1], xs[|xs| - 1];
      var fed := Fed(x, DialectAfter(xs), ValidAfter(init));
      HashedIsTranscriptIff(init);
      HashedLengths(init);
      FedIsShorter(x, DialectAfter(xs), ValidAfter(init));
      SplitEqual(Hashed(init), fed, Transcript(init), Messages(x));
    }
  }

  /** Before the first success no session is valid. */
  lemma {:induction false} UnauthenticatedIsComplete(xs: seq<Exchange>)
    requires Unauthenticated(xs)
    ensures !ValidAfter(xs) && (Complete(xs) <==> AllDecide311(xs))
  {
    if xs != [] {
      UnauthenticatedIsComplete(xs[..|xs| - 1]);
      assert !(xs[|xs| - 1].SessionSetup? && xs[|xs| - 1].success);
    }
  }

  /** On any connection the key comes from the chain over what was fed, and the request if no session is valid. */
  lemma DerivesFromHashed(h: HashFunction, xs: seq<Exchange>, last: Exchange)
    requires last.SessionSetup? && last.success && DialectAfter(xs) >= SMB3_1_1 && Hashed(xs) != []
    ensures DerivationHash(h, Run(h, xs), last)
            == Chain(h, if ValidAfter(xs) then Hashed(xs) else Hashed(xs) + [last.request])
  {
    hide Chain, Update, Hashed;
    RunState(h, xs);
    UpdateTracks(h, Run(h, xs).hash, Hashed(xs), last.request);
  }

  /**
   On a 3.1.1 connection, after any number of SESSION_SETUP rounds, the hash given to the key
   derivation at the first success is the chain over NEGOTIATE and SESSION_SETUP requests and
   responses up to and including the last request.
   */
  lemma DerivesFromTranscript(h: HashFunction, xs: seq<Exchange>, last: Exchange)
    requires Unauthenticated(xs) && AllDecide311(xs)
    requires last.SessionSetup? && last.success
    requires DialectAfter(xs) >= SMB3_1_1
    ensures DerivationHash(h, Run(h, xs), last) == Chain(h, Transcript(xs) + [last.request])
  {
    hide Chain, Update, Hashed, Transcript;
    RunState(h, xs);
    UnauthenticatedIsComplete(xs);
    HashedIsTranscriptIff(xs);
    UpdateTracks(h, Run(h, xs).hash, Hashed(xs), last.request);
  }

  lemma HashedSnoc(xs: seq<Exchange>, x: Exchange)
    ensures Hashed(xs + [x]) == Hashed(xs) + Fed(x, DialectAfter(xs + [x]), ValidAfter(xs))
    ensures DialectAfter(xs + [x]) == if x.Negotiate? && x.selected.Some? then x.selected.value else DialectAfter(xs)
    ensures x.Negotiate? ==> ValidAfter(xs + [x]) == (x.selected.None? && ValidAfter(xs))
  {
    hide Fed;
    assert (xs + [x])[..|xs|] == xs;
  }

  lemma NothingYet(xs: seq<Exchange>)
    requires xs == []
    ensures DialectAfter(xs) == 0 && Hashed(xs) == [] && !ValidAfter(xs)
  {
  }

  /**
   While a session is valid, a SESSION_SETUP that fails adds its response and not its request, and one
   that succeeds adds nothing.
   */
  lemma ReauthenticationSkipsRequest(xs: seq<Exchange>, x: Exchange)
    requires ValidAfter(xs) && DialectAfter(xs) >= SMB3_1_1 && x.SessionSetup?
    ensures Hashed(xs + [x]) == Hashed(xs) + (if x.success then [] else [x.response])
    ensures !Complete(xs + [x])
  {
    assert (xs + [x])[..|xs|] == xs && (xs + [x])[|xs|] == x;
    HashedSnoc(xs, x);
    assert [] + [x.response] == [x.response];
  }

  lemma FirstAuthenticationFeeds(neg: Message, negResp: Message, auth: Message, ok: Message)
    ensures Fed(Negotiate(neg, Some(SMB3_1_1), negResp), SMB3_1_1, false) == [neg, negResp]
    ensures Fed(SessionSetup(auth, true, ok), SMB3_1_1, false) == [auth]
  {
  }

  /** The first authentication of a connection, and a second one that fails. */
  lemma ReauthenticationRun(neg: Message, negResp: Message, auth: Message, ok: Message, again: Message, refused: Message)
    ensures var xs := [Negotiate(neg, Some(SMB3_1_1), negResp)] + [SessionSetup(auth, true, ok)];
            ValidAfter(xs) && DialectAfter(xs) >= SMB3_1_1
            && Hashed(xs + [SessionSetup(again, false, refused)]) == [neg, negResp, auth, refused]
  {
    hide Hashed, Fed;
    var n, a := Negotiate(neg, Some(SMB3_1_1), negResp), SessionSetup(auth, true, ok);
    NegotiateFirst(neg, Some(SMB3_1_1), negResp);
    HashedSnoc([n], a);
    assert ([n] + [a])[..1] == [n] && DialectAfter([n] + [a]) == SMB3_1_1;
    FirstAuthenticationFeeds(neg, negResp, auth, ok);
    ReauthenticationSkipsRequest([n] + [a], SessionSetup(again, false, refused));
  }

  lemma NegotiateFirst(request: Message, selected: Option<nat>, response: Message)
    ensures var x := Negotiate(request, selected, response);
            && DialectAfter([x]) == (if selected.Some? then selected.value else 0) && !ValidAfter([x])
            && Hashed([x]) == Fed(x, DialectAfter([x]), false)
  {
    hide Fed, Hashed, DialectAfter, ValidAfter;
    var x := Negotiate(request, selected, response);
    NothingYet([]);
    HashedSnoc([], x);
    assert [] + [x] == [x];
  }

  /** A client that starts with SMB1 adds an empty link that no transcript of the 3.1.1 dialogue has. */
  lemma Smb1UpgradeAddsLink(neg: Message, resp: Message, smb1Response: Message)
    ensures var xs := [Negotiate([], None, smb1Response)] + [Negotiate(neg, Some(SMB3_1_1), resp)];
            Unauthenticated(xs) && Hashed(xs) == [[], neg, resp]
  {
    hide Hashed, ValidAfter;
    var upgrade, n := Negotiate([], None, smb1Response), Negotiate(neg, Some(SMB3_1_1), resp);
    NegotiateFirst([], None, smb1Response);
    HashedSnoc([upgrade], n);
    assert DialectAfter([upgrade] + [n]) == SMB3_1_1;
    assert Fed(upgrade, 0, false) == [[]] && [[]] + [neg, resp] == [[], neg, resp];
  }

  /** Dialect 3.1.1 is the first to hash responses. */
  lemma DialectThreshold(request: Message, response: Message)
    ensures Hashed([Negotiate(request, Some(0x0310), response)]) == [request]
    ensures Hashed([Negotiate(request, Some(0x0311), response)]) == [request, response]
  {
    hide Hashed, DialectAfter, ValidAfter;
    NegotiateFirst(request, Some(0x0310), response);
    NegotiateFirst(request, Some(0x0311), response);
  }
}
