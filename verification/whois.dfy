/**
 The expiration decision of `check_whois_expiration`. The WHOIS lookup itself
 is an input (its reply, or the fact that it raised), and so is the clock:
 `daysUntil(d)` is the whole-day count `(d - now).days`, or `None` when that
 subtraction raises.
 */
module Whois {
  import opened Options

  /** Domains expiring within this many days (or already expired) are flagged. */
  const ExpirationThresholdDays: int := 30

  /** The `expiration_date` field of a WHOIS record: absent, one date, or a list of dates. */
  datatype ExpirationField<D> = NoDate | OneDate(date: D) | DateList(dates: seq<D>)

  /** What `whois.whois(domain)` gives: a record, or an exception. */
  datatype WhoisReply<D> = WhoisFailed | WhoisRecord(expiration: ExpirationField<D>)

  /** The pair `(expiring_soon, expiration_date)` the check returns. */
  datatype Expiry<D> = Expiry(soon: bool, date: Option<D>)

  /** The single date the check looks at, if there is one: the field itself or the head of the list. */
  function FirstDate<D>(field: ExpirationField<D>): Option<D>
  {
    match field
    case NoDate => None
    case OneDate(d) => Some(d)
    case DateList(ds) => if |ds| == 0 then None else Some(ds[0])
  }

  /** The comparison against the threshold, once a date is known. */
  function DecideOn<D>(d: D, daysUntil: D -> Option<int>): Expiry<D>
  {
    match daysUntil(d)
    case None => Expiry(false, None)
    case Some(days) => Expiry(days <= ExpirationThresholdDays, Some(d))
  }

  /** `check_whois_expiration`, given the WHOIS reply and the clock. */
  function CheckExpiration<D>(reply: WhoisReply<D>, daysUntil: D -> Option<int>): (r: Expiry<D>)
    ensures r.soon ==> r.date.Some?
    ensures r.date.Some? <==>
              && reply.WhoisRecord?
              && FirstDate(reply.expiration).Some?
              && daysUntil(FirstDate(reply.expiration).value).Some?
    ensures r.date.Some? ==> r.date == FirstDate(reply.expiration)
    ensures r.date.Some? ==> (r.soon <==> daysUntil(r.date.value).value <= ExpirationThresholdDays)
  {
    match reply
    case WhoisFailed => Expiry(false, None)
    case WhoisRecord(field) =>
      match field
      case NoDate => Expiry(false, None)
      case OneDate(d) => DecideOn(d, daysUntil)
      // indexing an empty list raises, and the handler answers (False, None)
      case DateList(ds) => if |ds| == 0 then Expiry(false, None) else DecideOn(ds[0], daysUntil)
  }

  /** A list of dates is judged by its first element alone, exactly as that date on its own. */
  lemma OnlyFirstDateCounts<D>(d: D, rest: seq<D>, daysUntil: D -> Option<int>)
    ensures CheckExpiration(WhoisRecord(DateList([d] + rest)), daysUntil) ==
            CheckExpiration(WhoisRecord(OneDate(d)), daysUntil)
  {
  }

  /** Every failure, and an absent field, gives (False, None). */
  lemma FailuresGiveNothing<D>(reply: WhoisReply<D>, daysUntil: D -> Option<int>)
    requires || reply.WhoisFailed?
             || reply.expiration.NoDate?
             || reply.expiration == DateList([])
             || daysUntil(FirstDate(reply.expiration).value).None?
    ensures CheckExpiration(reply, daysUntil) == Expiry(false, None)
  {
  }

  /** A date already in the past counts as expiring soon. */
  lemma PastDateIsSoon<D>(reply: WhoisReply<D>, daysUntil: D -> Option<int>, d: D)
    requires reply.WhoisRecord? && FirstDate(reply.expiration) == Some(d)
    requires daysUntil(d).Some? && daysUntil(d).value < 0
    ensures CheckExpiration(reply, daysUntil) == Expiry(true, Some(d))
  {
  }

  /** A flag never clears as time passes: fewer days left keeps a soon-expiring date flagged. */
  lemma SoonStaysSoon<D>(reply: WhoisReply<D>, earlier: D -> Option<int>, later: D -> Option<int>)
    requires forall d :: earlier(d).Some? ==> later(d).Some? && later(d).value <= earlier(d).value
    requires CheckExpiration(reply, earlier).soon
    ensures CheckExpiration(reply, later).soon
    ensures CheckExpiration(reply, later).date == CheckExpiration(reply, earlier).date
  {
  }
}
