/**
 * The settings the forwarder and the SRS rewriter read. Every setting is
 * nullable; the defaults the code falls back on with `??` are constants here.
 * Connection settings (servers, ports, users, passwords, push URLs, the IMAP
 * namespace) only feed the mail transport and are not carried.
 */
module Configuration {
  import opened Wrappers

  datatype Config = Config(
    mailTo: Option<string>,
    mailToName: Option<string>,
    fowardTo: Option<string>,
    fowardToName: Option<string>,
    srsHashKey: Option<string>,
    srsTemplate: Option<string>,
    srsSearchTerm: Option<string>,
    imapSentFolder: Option<string>,
    imapArchivFolder: Option<string>)

  /** The HMAC key used when SRSHashKey is not set. */
  const DefaultHashKey: string := "R2D2"

  /** The placeholders of the SRS address template. */
  const HashSlot: string := "{hash}"
  const TimestampSlot: string := "{timestamp}"
  const OrigDomainSlot: string := "{origSenderDomain}"
  const OrigLocalPartSlot: string := "{origSenderLocalPart}"
  const NewDomainSlot: string := "{newSenderDomain}"
  const NewLocalPartSlot: string := "{newSenderLocalPart}"

  /** The address template used when SRSTemplate is not set: `SRS0={hash}={timestamp}={origSenderDomain}={origSenderLocalPart}@{newSenderDomain}`. */
  const DefaultTemplate: string :=
    "SRS0=" + HashSlot + "=" + TimestampSlot + "=" + OrigDomainSlot + "=" + OrigLocalPartSlot + "@" + NewDomainSlot

  /** The marker that identifies a rewritten address, used when SRSSearchTerm is not set. */
  const DefaultSearchTerm: string := "+SRS="

  /** `String.IsNullOrEmpty`. */
  predicate IsNullOrEmpty(s: Option<string>) {
    s.None? || s.value == ""
  }
}
