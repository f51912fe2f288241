/**
 * The parts of MimeKit's message model the forwarder touches: a header
 * address is either a mailbox (display name and address) or a group, and a
 * mailbox address splits into local part and domain at its last '@'.
 */
module Mime {
  import opened Wrappers

  datatype InternetAddress =
    | Mailbox(name: string, address: string)
    | Group(name: string)

  /** The address lists and fields of a message header that the forwarder reads or rewrites. */
  datatype Headers = Headers(
    to: seq<InternetAddress>,
    from: seq<InternetAddress>,
    replyTo: seq<InternetAddress>,
    cc: seq<InternetAddress>,
    bcc: seq<InternetAddress>,
    sender: Option<InternetAddress>,
    subject: string)

  /** `s.LastIndexOf(c)`: the last position of c in s, or -1. */
  function LastIndexOf(s: string, c: char): (r: int)
    ensures -1 <= r < |s|
    ensures r >= 0 ==> s[r] == c
    ensures forall k :: r < k < |s| ==> s[k] != c
  {
    if s == [] then -1
    else if s[|s| - 1] == c then |s| - 1
    else LastIndexOf(s[..|s| - 1], c)
  }

  /** MailboxAddress.LocalPart: what precedes the last '@', or the whole address. */
  function LocalPart(address: string): string {
    var at := LastIndexOf(address, '@');
    if at < 0 then address else address[..at]
  }

  /** MailboxAddress.Domain: what follows the last '@', or nothing. */
  function Domain(address: string): string {
    var at := LastIndexOf(address, '@');
    if at < 0 then "" else address[at + 1..]
  }

  /** An address with an '@' is its local part and domain joined again; the domain holds no '@'. */
  lemma SplitAddress(address: string)
    requires '@' in address
    ensures LocalPart(address) + "@" + Domain(address) == address
    ensures '@' !in Domain(address)
  {
    var at := LastIndexOf(address, '@');
    var k :| 0 <= k < |address| && address[k] == '@';
    assert at >= k;
    assert address == address[..at] + [address[at]] + address[at + 1..];
    forall j | 0 <= j < |Domain(address)|
      ensures Domain(address)[j] != '@'
    {
      assert Domain(address)[j] == address[at + 1 + j];
    }
  }

  /** An address without an '@' is all local part. */
  lemma NoAt(address: string)
    requires '@' !in address
    ensures LocalPart(address) == address && Domain(address) == ""
  {
  }

  /** The local part and domain of `local@domain` when the domain holds no '@'. */
  lemma JoinAddress(localPart: string, domain: string)
    requires '@' !in domain
    ensures LocalPart(localPart + "@" + domain) == localPart
    ensures Domain(localPart + "@" + domain) == domain
  {
    var address := localPart + "@" + domain;
    var at := LastIndexOf(address, '@');
    assert address[|localPart|] == '@';
    forall k | |localPart| < k < |address|
      ensures address[k] != '@'
    {
      assert address[k] == domain[k - |localPart| - 1];
    }
    assert at == |localPart|;
    assert address[..at] == localPart;
    assert address[at + 1..] == domain;
  }

  /** A character the address lacks is in neither part. */
  lemma PartsLack(address: string, c: char)
    requires c !in address
    ensures c !in LocalPart(address) && c !in Domain(address)
  {
    var at := LastIndexOf(address, '@');
    if at >= 0 {
      forall k | 0 <= k < at
        ensures LocalPart(address)[k] != c
      {
        assert LocalPart(address)[k] == address[k];
      }
      forall k | 0 <= k < |address| - at - 1
        ensures Domain(address)[k] != c
      {
        assert Domain(address)[k] == address[at + 1 + k];
      }
    }
  }
}
