/**
 * The MailForwarder class: one pass over the messages the IMAP search
 * returned, forwarding those addressed to MailTo with an SRS sender and
 * sending back those addressed to a rewritten address.
 *
 * The mail transport is an event log: sending a message over SMTP, appending
 * it to the sent folder and moving it to the archive folder each append an
 * event. An exception that would leave ProcessMails (a group address met by
 * `Cast<MailboxAddress>()`, `From.First()` on an empty From list) ends the
 * pass; the events already logged stay.
 */
module Forwarding {
  import opened Wrappers
  import opened Strings
  import opened Configuration
  import opened Srs
  import opened Mime
  import opened Seqs

  // ---------------------------------------------------------------------------
  // Environment

  /** A day counter as makeTimestamp computes it (the rounding may reach 1024). */
  type Day = n: int | 0 <= n <= 1024

  /**
   * The SRS object as the forwarder sees it: BuildSRSAddress as a function of
   * the four address parts, and the three address decoders that SRS.cs does
   * not define. The object is built on the forwarder's own configuration.
   */
  datatype SrsService = SrsService(
    build: (string, string, string, string) -> string,
    check: string -> bool,
    originalDomain: string -> string,
    originalLocalPart: string -> string)

  /** The SRS object of SRS.cs, with its HMAC and the day counter its clock gives. */
  function SrsObject(config: Config, hmac: Hmac, now: Day, check: string -> bool,
                     originalDomain: string -> string, originalLocalPart: string -> string): (s: SrsService)
    ensures forall a, b, c, d :: s.build(a, b, c, d) == Address(config, hmac, now, a, b, c, d)
  {
    SrsService((a, b, c, d) => Address(config, hmac, now, a, b, c, d), check, originalDomain, originalLocalPart)
  }

  datatype Event =
    | Sent(message: Headers)
    | Appended(folder: string, message: Headers)
    | Moved(uid: nat, folder: string)

  // ---------------------------------------------------------------------------
  // Address lookup

  /** The test a To address has to pass. */
  datatype Rule =
    | Equal(target: string)
    | ContainsTerm(term: string)

  predicate Matches(rule: Rule, address: string) {
    match rule
    case Equal(target) => target == address
    case ContainsTerm(term) => Contains(address, term)
  }

  /** The forward rule: the address is MailTo, compared ordinally. */
  function ForwardRule(config: Config): Rule {
    Equal(config.mailTo.GetOr(""))
  }

  /** The return rule: the address contains the SRS search term. */
  function ReturnRule(config: Config): Rule {
    ContainsTerm(config.srsSearchTerm.GetOr(DefaultSearchTerm))
  }

  datatype Lookup =
    | Found(name: string, address: string)
    | NotFound
    | CastFailure

  /**
   * `list.Cast<MailboxAddress>().FirstOrDefault(a => rule(a.Address))`: the
   * cast is lazy, so a group address throws only once the scan reaches it.
   */
  function FirstMatch(list: seq<InternetAddress>, rule: Rule): Lookup {
    if list == [] then NotFound
    else match list[0]
      case Group(_) => CastFailure
      case Mailbox(name, address) =>
        if Matches(rule, address) then Found(name, address) else FirstMatch(list[1..], rule)
  }

  /** An entry the scan passes over: a mailbox whose address fails the rule. */
  predicate Passes(a: InternetAddress, rule: Rule) {
    a.Mailbox? && !Matches(rule, a.address)
  }

  /**
   * The scan stops at the first entry it does not pass over: at a mailbox
   * that matches it finds that mailbox, at a group it throws, and past the
   * end it finds nothing.
   */
  lemma {:induction false} FirstMatchAt(list: seq<InternetAddress>, rule: Rule, k: int)
    requires 0 <= k <= |list|
    requires forall j :: 0 <= j < k ==> Passes(list[j], rule)
    requires k < |list| ==> !Passes(list[k], rule)
    ensures FirstMatch(list, rule) ==
              if k == |list| then NotFound
              else if list[k].Group? then CastFailure
              else Found(list[k].name, list[k].address)
    decreases k
  {
    if k > 0 {
      assert Passes(list[0], rule);
      forall j | 0 <= j < k - 1
        ensures Passes(list[1..][j], rule)
      {
        assert list[1..][j] == list[j + 1];
      }
      FirstMatchAt(list[1..], rule, k - 1);
    }
  }

  /** Every list has such a stopping point. */
  lemma {:induction false} StopExists(list: seq<InternetAddress>, rule: Rule) returns (k: int)
    ensures 0 <= k <= |list|
    ensures forall j :: 0 <= j < k ==> Passes(list[j], rule)
    ensures k < |list| ==> !Passes(list[k], rule)
    decreases |list|
  {
    if list == [] || !Passes(list[0], rule) {
      k := 0;
    } else {
      var k' := StopExists(list[1..], rule);
      k := k' + 1;
      forall j | 0 <= j < k
        ensures Passes(list[j], rule)
      {
        if j > 0 {
          assert list[j] == list[1..][j - 1];
        }
      }
      assert k < |list| ==> list[k] == list[1..][k'];
    }
  }

  /** A found address is a mailbox of the list that passes the rule. */
  lemma FoundMatches(list: seq<InternetAddress>, rule: Rule)
    requires FirstMatch(list, rule).Found?
    ensures Matches(rule, FirstMatch(list, rule).address)
    ensures Mailbox(FirstMatch(list, rule).name, FirstMatch(list, rule).address) in list
  {
    var k := StopExists(list, rule);
    FirstMatchAt(list, rule, k);
  }

  /** Nothing is found exactly when every entry is a mailbox that fails the rule. */
  lemma NotFoundAll(list: seq<InternetAddress>, rule: Rule)
    ensures FirstMatch(list, rule).NotFound? <==> forall j :: 0 <= j < |list| ==> Passes(list[j], rule)
  {
    var k := StopExists(list, rule);
    FirstMatchAt(list, rule, k);
  }

  /** A one-entry mailbox list finds that mailbox exactly when it passes the rule. */
  lemma SingleMailbox(name: string, address: string, rule: Rule)
    ensures FirstMatch([Mailbox(name, address)], rule) ==
              if Matches(rule, address) then Found(name, address) else NotFound
  {
    assert [Mailbox(name, address)][1..] == [];
  }

  // ---------------------------------------------------------------------------
  // The effect of one message, as a function of its headers

  /** What handling a message leaves: its headers, the events logged, and whether it threw. */
  datatype Step = Step(headers: Headers, events: seq<Event>, aborted: bool)

  /**
   * SendMessage after the SMTP send: the copy into the sent folder when
   * ImapSentFolder is set, the move into the archive folder when
   * ImapArchivFolder is set and the server can move.
   */
  function SendEvents(config: Config, canMove: bool, uid: nat, h: Headers): seq<Event> {
    [Sent(h)]
    + (if !IsNullOrEmpty(config.imapSentFolder) then [Appended(config.imapSentFolder.value, h)] else [])
    + (if !IsNullOrEmpty(config.imapArchivFolder) && canMove then [Moved(uid, config.imapArchivFolder.value)] else [])
  }

  /** The forward target of FowardTo and FowardToName. */
  function ForwardTarget(config: Config): InternetAddress {
    Mailbox(config.fowardToName.GetOr(""), config.fowardTo.GetOr(""))
  }

  /** ForwardMessage. */
  function Forward(config: Config, srs: Option<SrsService>, canMove: bool, uid: nat, h: Headers): Step {
    match FirstMatch(h.to, ForwardRule(config))
    case CastFailure => Step(h, [], true)
    case NotFound => Step(h, [], false)
    case Found(_, toAddress) =>
      var h1 := h.(to := [ForwardTarget(config)]);
      if h.from == [] then Step(h1, [], true)
      else if h.from[0].Group? || srs.None? then Step(h1, [], false)
      else
        var orig := h.from[0];
        var address := srs.value.build(Domain(orig.address), LocalPart(orig.address), Domain(toAddress), LocalPart(toAddress));
        var h2 := h1.(from := [Mailbox(orig.name, address)], replyTo := [orig], cc := [], bcc := [], sender := None);
        Step(h2, SendEvents(config, canMove, uid, h2), false)
  }

  /** SendBackMessage; MailTo is set whenever it runs. */
  function SendBack(config: Config, srs: Option<SrsService>, canMove: bool, uid: nat, h: Headers): Step
    requires config.mailTo.Some?
  {
    match FirstMatch(h.to, ReturnRule(config))
    case CastFailure => Step(h, [], true)
    case NotFound => Step(h, [], false)
    case Found(name, address) =>
      if srs.None? || !srs.value.check(address) then Step(h, [], false)
      else
        var newTo := Mailbox(name, srs.value.originalLocalPart(address) + "@" + srs.value.originalDomain(address));
        var newFrom := Mailbox(config.mailToName.GetOr(""), config.mailTo.value);
        var h2 := h.(to := [newTo], from := [newFrom], replyTo := [newFrom], cc := [], bcc := [], sender := None);
        Step(h2, SendEvents(config, canMove, uid, h2), false)
  }

  /** The body of the loop in ProcessMails: the forward rule, then the return rule on the headers as they now are. */
  function Handle(config: Config, srs: Option<SrsService>, canMove: bool, uid: nat, h: Headers): Step
    requires config.mailTo.Some?
  {
    var first := FirstMatch(h.to, ForwardRule(config));
    if first.CastFailure? then Step(h, [], true)
    else
      var f := if first.Found? then Forward(config, srs, canMove, uid, h) else Step(h, [], false);
      if f.aborted then f
      else
        var second := FirstMatch(f.headers.to, ReturnRule(config));
        if second.CastFailure? then f.(aborted := true)
        else if second.NotFound? then f
        else
          var b := SendBack(config, srs, canMove, uid, f.headers);
          Step(b.headers, f.events + b.events, b.aborted)
  }

  datatype Outcome = NotConfigured | Completed | Aborted(at: nat)

  datatype PassResult = PassResult(outcome: Outcome, events: seq<Event>, headers: seq<Headers>)

  /**
   * The loop of ProcessMails, given what handling each message on its own does:
   * the steps are taken in order until one aborts, and the messages after it
   * are left as they were.
   */
  function Run(steps: seq<Step>, hs: seq<Headers>): (r: PassResult)
    requires |steps| == |hs|
    ensures |r.headers| == |hs| && !r.outcome.NotConfigured?
    ensures r.outcome.Aborted? ==> r.outcome.at < |hs|
  {
    if hs == [] then PassResult(Completed, [], [])
    else
      var n := |hs| - 1;
      var prev := Run(steps[..n], hs[..n]);
      if prev.outcome.Aborted? then prev.(headers := prev.headers + [hs[n]])
      else PassResult(if steps[n].aborted then Aborted(n) else Completed, prev.events + steps[n].events, prev.headers + [steps[n].headers])
  }

  /** Each message handled on its own headers. */
  function Steps(config: Config, srs: Option<SrsService>, canMove: bool, uids: seq<nat>, hs: seq<Headers>): (r: seq<Step>)
    requires config.mailTo.Some? && |uids| == |hs|
    ensures |r| == |hs|
  {
    seq(|hs|, j requires 0 <= j < |hs| => Handle(config, srs, canMove, uids[j], hs[j]))
  }

  /** ProcessMails: nothing at all without MailTo, the loop otherwise. */
  function Process(config: Config, srs: Option<SrsService>, canMove: bool, uids: seq<nat>, hs: seq<Headers>): PassResult
    requires |uids| == |hs|
  {
    if IsNullOrEmpty(config.mailTo) then PassResult(NotConfigured, [], hs)
    else Run(Steps(config, srs, canMove, uids, hs), hs)
  }

  // ---------------------------------------------------------------------------
  // Laws of one message

  /**
   * SendMessage logs the sent message first; it copies it into the sent folder
   * exactly when ImapSentFolder is set, and moves the original into the archive
   * folder exactly when ImapArchivFolder is set and the server can move.
   */
  lemma SendEventsGating(config: Config, canMove: bool, uid: nat, h: Headers)
    ensures var e := SendEvents(config, canMove, uid, h);
            var appended, moved := Appended(config.imapSentFolder.GetOr(""), h), Moved(uid, config.imapArchivFolder.GetOr(""));
            && e[0] == Sent(h) && Sent(h) !in e[1..]
            && (appended in e <==> !IsNullOrEmpty(config.imapSentFolder))
            && (moved in e <==> !IsNullOrEmpty(config.imapArchivFolder) && canMove)
            && (moved in e ==> e[|e| - 1] == moved)
            && forall ev :: ev in e ==> ev == Sent(h) || ev == appended || ev == moved
  {
    var e := SendEvents(config, canMove, uid, h);
    var sent := if !IsNullOrEmpty(config.imapSentFolder) then [Appended(config.imapSentFolder.value, h)] else [];
    var move := if !IsNullOrEmpty(config.imapArchivFolder) && canMove then [Moved(uid, config.imapArchivFolder.value)] else [];
    assert e == [Sent(h)] + sent + move;
    assert e[1..] == sent + move;
  }

  /**
   * What ForwardMessage does, by the outcome of the lookup of MailTo among the
   * To addresses: a group there throws; an address found makes FowardTo the
   * only recipient, and an empty From list then throws; the message is sent
   * exactly when a mailbox sender and an SRS object are at hand; the subject
   * is never touched.
   */
  lemma ForwardEffects(config: Config, srs: Option<SrsService>, canMove: bool, uid: nat, h: Headers)
    ensures var m := FirstMatch(h.to, ForwardRule(config));
            var s := Forward(config, srs, canMove, uid, h);
            && (s.aborted <==> m.CastFailure? || (m.Found? && h.from == []))
            && (s.events != [] <==> m.Found? && h.from != [] && h.from[0].Mailbox? && srs.Some?)
            && s.headers.to == (if m.Found? then [ForwardTarget(config)] else h.to)
            && s.headers.subject == h.subject
            && (s.events == [] ==> s.headers == h.(to := s.headers.to))
  {
  }

  /**
   * A forwarded message: FowardTo is its only recipient, the original sender
   * moves to Reply-To, and the new sender keeps the original display name
   * with the SRS address built from the original sender's parts and the parts
   * of MailTo, the address it was found under.
   */
  lemma ForwardSrsSender(config: Config, srs: Option<SrsService>, canMove: bool, uid: nat, h: Headers)
    requires FirstMatch(h.to, ForwardRule(config)).Found?
    requires h.from != [] && h.from[0].Mailbox? && srs.Some?
    ensures var orig, mailTo := h.from[0], config.mailTo.GetOr("");
            var sender := srs.value.build(Domain(orig.address), LocalPart(orig.address), Domain(mailTo), LocalPart(mailTo));
            var s := Forward(config, srs, canMove, uid, h);
            && s.headers == h.(to := [ForwardTarget(config)], from := [Mailbox(orig.name, sender)], replyTo := [orig],
                               cc := [], bcc := [], sender := None)
            && s.events == SendEvents(config, canMove, uid, s.headers) && !s.aborted
  {
    FoundMatches(h.to, ForwardRule(config));
  }

  /**
   * With the SRS object of SRS.cs and the default template, a forwarded message's
   * sender is `SRS0=hash=timestamp=domain=localPart@newDomain`: the hash of the
   * original sender's domain and local part, the day's timestamp, the original
   * sender's parts, and MailTo's domain; nothing takes MailTo's local part.
   * Addresses without a '{' cannot bring in a placeholder.
   */
  lemma ForwardDefaultSender(config: Config, hmac: Hmac, now: Day, check: string -> bool,
                             originalDomain: string -> string, originalLocalPart: string -> string,
                             canMove: bool, uid: nat, h: Headers)
    requires config.srsTemplate.None? && FirstMatch(h.to, ForwardRule(config)).Found?
    requires h.from != [] && h.from[0].Mailbox?
    requires '{' !in h.from[0].address && '{' !in config.mailTo.GetOr("")
    ensures var orig, mailTo := h.from[0], config.mailTo.GetOr("");
            var od, ol := Domain(orig.address), LocalPart(orig.address);
            var srs := SrsObject(config, hmac, now, check, originalDomain, originalLocalPart);
            Forward(config, Some(srs), canMove, uid, h).headers.from
              == [Mailbox(orig.name, "SRS0=" + HashTag(config, hmac, od + ";" + ol) + "=" + Timestamp(now)
                                     + "=" + od + "=" + ol + "@" + Domain(mailTo))]
  {
    var orig, mailTo := h.from[0], config.mailTo.GetOr("");
    var od, ol, nd, nl := Domain(orig.address), LocalPart(orig.address), Domain(mailTo), LocalPart(mailTo);
    var srs := SrsObject(config, hmac, now, check, originalDomain, originalLocalPart);
    ForwardSrsSender(config, Some(srs), canMove, uid, h);
    PartsLack(orig.address, '{');
    PartsLack(mailTo, '{');
    Placeholders();
    FirstAbsent(od, OrigLocalPartSlot);
    FirstAbsent(od, NewDomainSlot);
    FirstAbsent(od, NewLocalPartSlot);
    FirstAbsent(ol, NewDomainSlot);
    FirstAbsent(ol, NewLocalPartSlot);
    FirstAbsent(nd, NewLocalPartSlot);
    AddressDefault(config, hmac, now, od, ol, nd, nl);
  }

  /**
   * After a forward, the return rule looks at FowardTo alone: it finds it
   * exactly when FowardTo holds the search term, and it cannot throw.
   */
  lemma ReturnAfterForward(config: Config, srs: Option<SrsService>, canMove: bool, uid: nat, h: Headers)
    requires FirstMatch(h.to, ForwardRule(config)).Found? && !Forward(config, srs, canMove, uid, h).aborted
    ensures var target := config.fowardTo.GetOr("");
            FirstMatch(Forward(config, srs, canMove, uid, h).headers.to, ReturnRule(config))
              == if Contains(target, ReturnRule(config).term) then Found(config.fowardToName.GetOr(""), target) else NotFound
  {
    SingleMailbox(config.fowardToName.GetOr(""), config.fowardTo.GetOr(""), ReturnRule(config));
  }

  /**
   * What SendBackMessage does, by the outcome of the lookup of the search term
   * among the To addresses: a group there throws; the message goes out exactly
   * when an address holding the term is found and the SRS check accepts it,
   * and then it is addressed to the decoded original sender and comes from
   * MailTo; otherwise it is left as it was (a failed check fails closed).
   */
  lemma SendBackEffects(config: Config, srs: Option<SrsService>, canMove: bool, uid: nat, h: Headers)
    requires config.mailTo.Some?
    ensures var m := FirstMatch(h.to, ReturnRule(config));
            var s := SendBack(config, srs, canMove, uid, h);
            && (s.aborted <==> m.CastFailure?)
            && (s.events != [] <==> m.Found? && srs.Some? && srs.value.check(m.address))
            && (s.events == [] ==> s.headers == h)
            && (s.events != [] ==>
                  var back := Mailbox(config.mailToName.GetOr(""), config.mailTo.value);
                  && Contains(m.address, ReturnRule(config).term)
                  && s.headers == h.(to := [Mailbox(m.name, srs.value.originalLocalPart(m.address) + "@" + srs.value.originalDomain(m.address))],
                                     from := [back], replyTo := [back], cc := [], bcc := [], sender := None)
                  && s.events == SendEvents(config, canMove, uid, s.headers))
  {
    if FirstMatch(h.to, ReturnRule(config)).Found? {
      FoundMatches(h.to, ReturnRule(config));
    }
  }

  /** The new recipient of a returned message splits back into the decoded local part and domain. */
  lemma SendBackRecipient(config: Config, srs: Option<SrsService>, canMove: bool, uid: nat, h: Headers)
    requires config.mailTo.Some? && SendBack(config, srs, canMove, uid, h).events != []
    requires var m := FirstMatch(h.to, ReturnRule(config));
             m.Found? && srs.Some? && '@' !in srs.value.originalDomain(m.address)
    ensures var m := FirstMatch(h.to, ReturnRule(config));
            var to := SendBack(config, srs, canMove, uid, h).headers.to;
            && |to| == 1 && to[0].Mailbox?
            && LocalPart(to[0].address) == srs.value.originalLocalPart(m.address)
            && Domain(to[0].address) == srs.value.originalDomain(m.address)
  {
    var m := FirstMatch(h.to, ReturnRule(config));
    JoinAddress(srs.value.originalLocalPart(m.address), srs.value.originalDomain(m.address));
  }

  /** A message that is not addressed to MailTo is handled by the return rule alone. */
  lemma HandleNotForwarded(config: Config, srs: Option<SrsService>, canMove: bool, uid: nat, h: Headers)
    requires config.mailTo.Some? && FirstMatch(h.to, ForwardRule(config)).NotFound?
    ensures Handle(config, srs, canMove, uid, h) == SendBack(config, srs, canMove, uid, h)
  {
  }

  /** A message that neither rule finds an address in is left alone and nothing is sent. */
  lemma HandleIgnores(config: Config, srs: Option<SrsService>, canMove: bool, uid: nat, h: Headers)
    requires config.mailTo.Some?
    requires FirstMatch(h.to, ForwardRule(config)).NotFound? && FirstMatch(h.to, ReturnRule(config)).NotFound?
    ensures Handle(config, srs, canMove, uid, h) == Step(h, [], false)
  {
  }

  /**
   * A forwarded message is then looked at by the return rule as forwarded:
   * it is sent back as well exactly when FowardTo holds the search term.
   */
  lemma HandleForwarded(config: Config, srs: Option<SrsService>, canMove: bool, uid: nat, h: Headers)
    requires config.mailTo.Some? && FirstMatch(h.to, ForwardRule(config)).Found?
    ensures var f := Forward(config, srs, canMove, uid, h);
            var b := SendBack(config, srs, canMove, uid, f.headers);
            Handle(config, srs, canMove, uid, h)
              == if f.aborted || !Contains(config.fowardTo.GetOr(""), ReturnRule(config).term) then f
                 else Step(b.headers, f.events + b.events, b.aborted)
  {
    if !Forward(config, srs, canMove, uid, h).aborted {
      ReturnAfterForward(config, srs, canMove, uid, h);
    }
  }

  // ---------------------------------------------------------------------------
  // The objects

  /** A MimeMessage whose header lists the forwarder rewrites in place. */
  class Message {
    var to: seq<InternetAddress>
    var from: seq<InternetAddress>
    var replyTo: seq<InternetAddress>
    var cc: seq<InternetAddress>
    var bcc: seq<InternetAddress>
    var sender: Option<InternetAddress>
    var subject: string

    constructor (h: Headers)
      ensures Snapshot() == h
    {
      to, from, replyTo, cc, bcc, sender, subject := h.to, h.from, h.replyTo, h.cc, h.bcc, h.sender, h.subject;
    }

    function Snapshot(): Headers
      reads this
    {
      Headers(to, from, replyTo, cc, bcc, sender, subject)
    }
  }

  class MailForwarder {
    const config: Config
    /** The SRS service the service provider hands out, if one is registered. */
    const srs: Option<SrsService>
    /** What the pass did to the outside world, in order. */
    var events: seq<Event>

    constructor (config: Config, srs: Option<SrsService>)
      ensures this.config == config && this.srs == srs && events == []
    {
      this.config := config;
      this.srs := srs;
      events := [];
    }

    method SendMessage(uid: nat, message: Message, canMove: bool)
      modifies this
      ensures events == old(events) + SendEvents(config, canMove, uid, message.Snapshot())
    {
      events := events + [Sent(message.Snapshot())];
      if !IsNullOrEmpty(config.imapSentFolder) {
        events := events + [Appended(config.imapSentFolder.value, message.Snapshot())];
      }
      if !IsNullOrEmpty(config.imapArchivFolder) {
        if canMove {
          events := events + [Moved(uid, config.imapArchivFolder.value)];
        }
      }
    }

    /** Returns whether an exception left the method. */
    method ForwardMessage(uid: nat, message: Message, canMove: bool) returns (aborted: bool)
      modifies this, message
      ensures var s := Forward(config, srs, canMove, uid, old(message.Snapshot()));
              message.Snapshot() == s.headers && events == old(events) + s.events && aborted == s.aborted
    {
      ghost var h := message.Snapshot();
      var origMessageTo := FirstMatch(message.to, ForwardRule(config));
      if origMessageTo.CastFailure? {
        return true;
      }
      if origMessageTo.Found? {
        message.to := [ForwardTarget(config)];
        ghost var h1 := message.Snapshot();
        assert h1 == h.(to := [ForwardTarget(config)]);
        if message.from == [] {
          return true;
        }
        var origMessageFrom := message.from[0];
        if origMessageFrom.Mailbox? && srs.Some? {
          var fromSrsAddress := srs.value.build(Domain(origMessageFrom.address), LocalPart(origMessageFrom.address),
                                                Domain(origMessageTo.address), LocalPart(origMessageTo.address));
          message.from := [Mailbox(origMessageFrom.name, fromSrsAddress)];
          message.replyTo := [origMessageFrom];
          message.cc := [];
          message.bcc := [];
          message.sender := None;
          assert message.Snapshot() == Forward(config, srs, canMove, uid, h).headers;
          SendMessage(uid, message, canMove);
        }
      }
      return false;
    }

    /** Returns whether an exception left the method. */
    method SendBackMessage(uid: nat, message: Message, canMove: bool) returns (aborted: bool)
      requires config.mailTo.Some?
      modifies this, message
      ensures var s := SendBack(config, srs, canMove, uid, old(message.Snapshot()));
              message.Snapshot() == s.headers && events == old(events) + s.events && aborted == s.aborted
    {
      var srsMessageTo := FirstMatch(message.to, ReturnRule(config));
      if srsMessageTo.CastFailure? {
        return true;
      }
      if srsMessageTo.Found? && srs.Some? {
        if srs.value.check(srsMessageTo.address) {
          var domain := srs.value.originalDomain(srsMessageTo.address);
          var localPart := srs.value.originalLocalPart(srsMessageTo.address);
          var address := localPart + "@" + domain;
          message.to := [Mailbox(srsMessageTo.name, address)];
          var newFromAddress := Mailbox(config.mailToName.GetOr(""), config.mailTo.value);
          message.from := [newFromAddress];
          message.replyTo := [newFromAddress];
          message.cc := [];
          message.bcc := [];
          message.sender := None;
          SendMessage(uid, message, canMove);
        }
      }
      return false;
    }

    /** The body of the loop in ProcessMails; returns whether an exception left it. */
    method HandleMessage(uid: nat, message: Message, canMove: bool) returns (aborted: bool)
      requires config.mailTo.Some?
      modifies this, message
      ensures var s := Handle(config, srs, canMove, uid, old(message.Snapshot()));
              message.Snapshot() == s.headers && events == old(events) + s.events && aborted == s.aborted
    {
      aborted := false;
      var origMessageTo := FirstMatch(message.to, ForwardRule(config));
      if origMessageTo.CastFailure? {
        return true;
      }
      if origMessageTo.Found? {
        aborted := ForwardMessage(uid, message, canMove);
        if aborted {
          return;
        }
      }
      var srsMessageTo := FirstMatch(message.to, ReturnRule(config));
      if srsMessageTo.CastFailure? {
        return true;
      }
      if srsMessageTo.Found? {
        aborted := SendBackMessage(uid, message, canMove);
      }
    }

    /**
     * One pass over the messages the search returned, uids[i] being the uid
     * of messages[i] and hs[i] its headers on entry. canMove is whether the
     * IMAP server has the MOVE capability.
     */
    method ProcessMails(uids: seq<nat>, messages: seq<Message>, canMove: bool, ghost hs: seq<Headers>) returns (outcome: Outcome)
      requires |uids| == |messages| == |hs|
      requires forall i, j :: 0 <= i < j < |messages| ==> messages[i] != messages[j]
      requires forall j :: 0 <= j < |messages| ==> messages[j].Snapshot() == hs[j]
      modifies this, messages
      ensures var p := Process(config, srs, canMove, uids, hs);
              && outcome == p.outcome && events == old(events) + p.events
              && forall j :: 0 <= j < |messages| ==> messages[j].Snapshot() == p.headers[j]
      ensures outcome.NotConfigured? <==> IsNullOrEmpty(config.mailTo)
    {
      if IsNullOrEmpty(config.mailTo) {
        ProcessUnconfigured(config, srs, canMove, uids, hs);
        assert events == old(events) + [];
        return NotConfigured;
      }
      ghost var done;
      outcome, done := HandleAll(uids, messages, canMove, hs);
      ProcessConfigured(config, srs, canMove, uids, hs);
      ghost var steps := Steps(config, srs, canMove, uids, hs);
      StepsPrefix(config, srs, canMove, uids, hs, done);
      ghost var k := |done|;
      if outcome.Aborted? {
        AbortedRest(steps, hs, k);
        SnapshotsExtend(messages, Run(done, hs[..k]).headers, hs, k);
      } else {
        assert steps[..k] == steps && hs[..k] == hs;
      }
    }

    /**
     * The first |done| messages have been handled, done holding what handling
     * each of them does; the pass logged their events after events0, and the
     * other messages are as they were.
     */
    ghost predicate Visited(uids: seq<nat>, messages: seq<Message>, canMove: bool, hs: seq<Headers>,
                            done: seq<Step>, events0: seq<Event>)
      requires config.mailTo.Some? && |uids| == |messages| == |hs| && |done| <= |hs|
      reads this, messages
    {
      && (forall j {:trigger Handle(config, srs, canMove, uids[j], hs[j])} :: 0 <= j < |done| ==>
            done[j] == Handle(config, srs, canMove, uids[j], hs[j]))
      && var p := Run(done, hs[..|done|]);
      && events == events0 + p.events
      && (forall j :: 0 <= j < |done| ==> messages[j].Snapshot() == p.headers[j])
      && (forall j :: |done| <= j < |messages| ==> messages[j].Snapshot() == hs[j])
    }

    /** The loop of ProcessMails, up to the message that aborts. */
    method HandleAll(uids: seq<nat>, messages: seq<Message>, canMove: bool, ghost hs: seq<Headers>)
      returns (outcome: Outcome, ghost done: seq<Step>)
      requires config.mailTo.Some?
      requires |uids| == |messages| == |hs|
      requires forall i, j :: 0 <= i < j < |messages| ==> messages[i] != messages[j]
      requires forall j :: 0 <= j < |messages| ==> messages[j].Snapshot() == hs[j]
      modifies this, messages
      ensures |done| <= |hs| && Visited(uids, messages, canMove, hs, done, old(events))
      ensures outcome == Run(done, hs[..|done|]).outcome
      ensures outcome.Completed? ==> |done| == |hs|
      ensures outcome.Aborted? ==> 0 < |done|
    {
      ghost var events0 := events;
      done := [];
      assert events == events0 + [];
      var i := 0;
      while i < |messages|
        invariant 0 <= i <= |messages| && |done| == i
        invariant Visited(uids, messages, canMove, hs, done, events0)
        invariant Run(done, hs[..i]).outcome == Completed
      {
        var aborted;
        aborted, done := Visit(uids, messages, canMove, i, hs, done, events0);
        if aborted {
          return Aborted(i), done;
        }
        i := i + 1;
      }
      return Completed, done;
    }

    /** One turn of the loop of ProcessMails: the next message is handled. */
    method Visit(uids: seq<nat>, messages: seq<Message>, canMove: bool, i: nat, ghost hs: seq<Headers>,
                 ghost done: seq<Step>, ghost events0: seq<Event>)
      returns (aborted: bool, ghost next: seq<Step>)
      requires config.mailTo.Some? && |uids| == |messages| == |hs| && i == |done| < |hs|
      requires forall i, j :: 0 <= i < j < |messages| ==> messages[i] != messages[j]
      requires Visited(uids, messages, canMove, hs, done, events0)
      requires Run(done, hs[..|done|]).outcome == Completed
      modifies this, messages[i]
      ensures |next| == i + 1 && Visited(uids, messages, canMove, hs, next, events0)
      ensures Run(next, hs[..i + 1]).outcome == if aborted then Aborted(i) else Completed
    {
      ghost var prev := Run(done, hs[..i]);
      var message := messages[i];
      label Before:
      aborted := HandleMessage(uids[i], message, canMove);
      forall j | 0 <= j < |messages| && j != i
        ensures messages[j].Snapshot() == old@Before(messages[j].Snapshot())
      {
        assert messages[j] != message;
      }
      ghost var s := Handle(config, srs, canMove, uids[i], hs[i]);
      RunSnoc(done, s, hs[..i], hs[i]);
      assert hs[..i] + [hs[i]] == hs[..i + 1];
      ConcatAssoc(events0, prev.events, s.events);
      next := done + [s];
    }
  }

  // ---------------------------------------------------------------------------
  // Laws of the pass

  /** The events of the steps, one step after the other. */
  function AllEvents(steps: seq<Step>): seq<Event> {
    if steps == [] then [] else steps[0].events + AllEvents(steps[1..])
  }

  lemma {:induction false} AllEventsSnoc(steps: seq<Step>, s: Step)
    ensures AllEvents(steps + [s]) == AllEvents(steps) + s.events
  {
    if steps == [] {
      assert [] + [s] == [s];
      assert [s][1..] == [];
    } else {
      assert (steps + [s])[1..] == steps[1..] + [s];
      AllEventsSnoc(steps[1..], s);
      ConcatAssoc(steps[0].events, AllEvents(steps[1..]), s.events);
    }
  }

  /**
   * The loop, stated outright: when k is the first step that aborts (or |steps|
   * when none does), the pass ends Aborted(k) or Completed, logs the events of
   * the steps up to k and no further, and leaves each message as its step left
   * it up to k and as it was after k.
   */
  lemma {:induction false} RunSpec(steps: seq<Step>, hs: seq<Headers>, k: nat)
    requires |steps| == |hs| && k <= |steps|
    requires forall j :: 0 <= j < k ==> !steps[j].aborted
    requires k < |steps| ==> steps[k].aborted
    ensures var r := Run(steps, hs);
            && r.outcome == (if k < |steps| then Aborted(k) else Completed)
            && r.events == AllEvents(steps[..if k < |steps| then k + 1 else k])
            && forall j :: 0 <= j < |hs| ==> r.headers[j] == if j <= k then steps[j].headers else hs[j]
  {
    if hs != [] {
      var n := |hs| - 1;
      var prev := Run(steps[..n], hs[..n]);
      var k' := if k < n then k else n;
      RunSpec(steps[..n], hs[..n], k');
      if k < n {
        assert steps[..n][..k + 1] == steps[..k + 1];
      } else {
        assert steps[..n][..n] == steps[..n];
        AllEventsSnoc(steps[..n], steps[n]);
        assert steps[..n] + [steps[n]] == steps[..n + 1];
        assert steps[..n + 1] == steps;
      }
    }
  }

  /**
   * ProcessMails with MailTo set, stated outright: when message k is the first
   * whose handling throws (or k is |hs| when none does), the pass ends there,
   * having logged what handling the messages up to k logged, in order; those
   * messages are rewritten as their handling rewrote them and the rest are
   * left as they were.
   */
  lemma PassSpec(config: Config, srs: Option<SrsService>, canMove: bool, uids: seq<nat>, hs: seq<Headers>, k: nat)
    requires |uids| == |hs| && !IsNullOrEmpty(config.mailTo) && k <= |hs|
    requires forall j :: 0 <= j < k ==> !Handle(config, srs, canMove, uids[j], hs[j]).aborted
    requires k < |hs| ==> Handle(config, srs, canMove, uids[k], hs[k]).aborted
    ensures var r := Process(config, srs, canMove, uids, hs);
            var steps := Steps(config, srs, canMove, uids, hs);
            && r.outcome == (if k < |hs| then Aborted(k) else Completed)
            && r.events == AllEvents(steps[..if k < |hs| then k + 1 else k])
            && forall j :: 0 <= j < |hs| ==>
                 r.headers[j] == if j <= k then Handle(config, srs, canMove, uids[j], hs[j]).headers else hs[j]
  {
    RunSpec(Steps(config, srs, canMove, uids, hs), hs, k);
  }

  /** Without MailTo the pass logs nothing and leaves every message as it was. */
  lemma ProcessUnconfigured(config: Config, srs: Option<SrsService>, canMove: bool, uids: seq<nat>, hs: seq<Headers>)
    requires |uids| == |hs| && IsNullOrEmpty(config.mailTo)
    ensures Process(config, srs, canMove, uids, hs) == PassResult(NotConfigured, [], hs)
  {
  }

  /** A step taken after a pass that has not aborted. */
  lemma RunSnoc(steps: seq<Step>, s: Step, hs: seq<Headers>, h: Headers)
    requires |steps| == |hs| && Run(steps, hs).outcome == Completed
    ensures var prev := Run(steps, hs);
            var next := Run(steps + [s], hs + [h]);
            && next.outcome == (if s.aborted then Aborted(|hs|) else Completed)
            && next.events == prev.events + s.events
            && next.headers == prev.headers + [s.headers]
  {
    assert (steps + [s])[..|hs|] == steps;
    assert (hs + [h])[..|hs|] == hs;
  }

  /** Steps that agree with the handling of the first messages are a prefix of the pass's steps. */
  lemma StepsPrefix(config: Config, srs: Option<SrsService>, canMove: bool, uids: seq<nat>, hs: seq<Headers>, done: seq<Step>)
    requires config.mailTo.Some? && |uids| == |hs| && |done| <= |hs|
    requires forall j {:trigger Handle(config, srs, canMove, uids[j], hs[j])} :: 0 <= j < |done| ==>
               done[j] == Handle(config, srs, canMove, uids[j], hs[j])
    ensures done == Steps(config, srs, canMove, uids, hs)[..|done|]
  {
  }

  /** Messages that hold p up to k and their original headers from k on hold p + hs[k..]. */
  lemma SnapshotsExtend(messages: seq<Message>, p: seq<Headers>, hs: seq<Headers>, k: nat)
    requires |p| == k <= |messages| == |hs|
    requires forall j :: 0 <= j < k ==> messages[j].Snapshot() == p[j]
    requires forall j :: k <= j < |messages| ==> messages[j].Snapshot() == hs[j]
    ensures forall j :: 0 <= j < |messages| ==> messages[j].Snapshot() == (p + hs[k..])[j]
  {
    forall j | 0 <= j < |messages|
      ensures messages[j].Snapshot() == (p + hs[k..])[j]
    {
      if j >= k {
        assert (p + hs[k..])[j] == hs[j];
      }
    }
  }

  /** With MailTo set, the pass is the loop over the steps. */
  lemma ProcessConfigured(config: Config, srs: Option<SrsService>, canMove: bool, uids: seq<nat>, hs: seq<Headers>)
    requires |uids| == |hs| && !IsNullOrEmpty(config.mailTo)
    ensures Process(config, srs, canMove, uids, hs) == Run(Steps(config, srs, canMove, uids, hs), hs)
  {
  }

  /** Past an abort, the loop leaves the next message as it was. */
  lemma RunStays(steps: seq<Step>, hs: seq<Headers>, i: nat)
    requires |steps| == |hs| && i < |hs|
    requires Run(steps[..i], hs[..i]).outcome.Aborted?
    ensures var prev := Run(steps[..i], hs[..i]);
            Run(steps[..i + 1], hs[..i + 1]) == prev.(headers := prev.headers + [hs[i]])
  {
    assert steps[..i + 1][..i] == steps[..i];
    assert hs[..i + 1][..i] == hs[..i];
  }

  /** After an abort at message k - 1 the rest of the messages is left alone and nothing more is logged. */
  lemma {:induction false} AbortedRest(steps: seq<Step>, hs: seq<Headers>, k: nat)
    requires |steps| == |hs| && 0 < k <= |hs|
    requires Run(steps[..k], hs[..k]).outcome.Aborted?
    ensures var p := Run(steps[..k], hs[..k]);
            Run(steps, hs) == p.(headers := p.headers + hs[k..])
    decreases |hs| - k
  {
    var p := Run(steps[..k], hs[..k]);
    if k == |hs| {
      assert steps[..k] == steps && hs[..k] == hs;
      assert hs[k..] == [];
    } else {
      RunStays(steps, hs, k);
      AbortedRest(steps, hs, k + 1);
      assert p.headers + [hs[k]] + hs[k + 1..] == p.headers + hs[k..];
    }
  }
}
