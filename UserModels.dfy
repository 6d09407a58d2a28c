/** The user record and the per-user presence row (`UserStatus`). */
module UserModels {
  import opened Common
  import Text

  /** A registered account. Passwords are hashed by the framework and play no
      part in the chat rules, so the model does not keep them. */
  datatype User = User(username: string, email: string)

  /** The value of one `UserStatus` row. */
  datatype Presence = Presence(isOnline: bool, lastSeen: Option<Time>)

  /** Field defaults of a new row: offline, never seen. */
  const INITIAL_PRESENCE := Presence(false, None)

  /** What `go_online` does to the row: the flag only; `last_seen` is not written. */
  function WentOnline(p: Presence): (r: Presence)
    ensures r.isOnline && r.lastSeen == p.lastSeen
  {
    p.(isOnline := true)
  }

  /** What `go_offline` does to the row: offline, stamped with the current time. */
  function WentOffline(p: Presence, now: Time): (r: Presence)
    ensures !r.isOnline && r.lastSeen == Some(now)
  {
    Presence(false, Some(now))
  }

  /** Going online twice is the same as going online once. */
  lemma GoOnlineIdempotent(p: Presence)
    ensures WentOnline(WentOnline(p)) == WentOnline(p)
  {
  }

  /** Going offline forgets whatever the row held before, except the user. */
  lemma GoOfflineForgetsHistory(p: Presence, q: Presence, now: Time)
    ensures WentOffline(p, now) == WentOffline(q, now)
  {
  }

  /** `BaseUserManager.normalize_email`, which `create_user` applies: the
      value is trimmed and cut at its last `@`; the part after it is
      lower-cased and the part before it kept. A value without `@` is
      returned as given. */
  function NormalizeEmail(e: string): (r: string)
    ensures '@' !in Text.Strip(e) ==> r == e
    ensures '@' in Text.Strip(e) ==>
      r == Text.LowerAfter(Text.Strip(e), Text.LastIndex(Text.Strip(e), '@').value)
  {
    var s := Text.Strip(e);
    match Text.LastIndex(s, '@')
    case None => e
    case Some(at) => Text.LowerAfter(s, at)
  }

  /** A normalised address is trimmed and keeps its last `@` where it was. */
  lemma NormalizedShape(s: string, at: nat)
    requires Text.LastIndex(s, '@') == Some(at)
    requires !Text.IsSpace(s[0]) && !Text.IsSpace(s[|s| - 1])
    ensures Text.Strip(Text.LowerAfter(s, at)) == Text.LowerAfter(s, at)
    ensures Text.LastIndex(Text.LowerAfter(s, at), '@') == Some(at)
  {
    var r := Text.LowerAfter(s, at);
    Text.LowerCharKeeps(s[0]);
    Text.LowerCharKeeps(s[|s| - 1]);
    Text.StripUnpadded(r);
    forall i | at < i < |r| ensures r[i] != '@' {
      Text.AfterLastIndex(s, '@', i);
      Text.LowerCharKeeps(s[i]);
    }
    Text.LastIndexIs(r, '@', at);
  }

  /** Normalising an already normalised address changes nothing, so the
      stored value is a fixed point. */
  lemma NormalizeEmailIdempotent(e: string)
    ensures NormalizeEmail(NormalizeEmail(e)) == NormalizeEmail(e)
  {
    var s := Text.Strip(e);
    match Text.LastIndex(s, '@')
    case None =>
    case Some(at) =>
      var r := Text.LowerAfter(s, at);
      assert NormalizeEmail(e) == r;
      NormalizedShape(s, at);
      Text.LowerAfterTwice(s, at);
      StoredAsIs(r, at);
  }

  /** A trimmed address that lower-casing after its last `@` leaves alone is
      its own normalisation. */
  lemma StoredAsIs(x: string, at: nat)
    requires Text.Strip(x) == x && Text.LastIndex(x, '@') == Some(at)
    requires Text.LowerAfter(x, at) == x
    ensures NormalizeEmail(x) == x
  {
  }

  /** A trimmed address made of a local part, `@` and a domain without `@`
      is cut after the local part. */
  lemma SplitAddress(local: string, domain: string)
    requires local != [] && !Text.IsSpace(local[0])
    requires domain != [] && !Text.IsSpace(domain[|domain| - 1]) && '@' !in domain
    ensures NormalizeEmail(local + ['@'] + domain) == Text.LowerAfter(local + ['@'] + domain, |local|)
  {
    var e := local + ['@'] + domain;
    Text.StripUnpadded(e);
    forall i | |local| < i < |e| ensures e[i] != '@' {
      assert e[i] == domain[i - |local| - 1];
    }
    Text.LastIndexIs(e, '@', |local|);
  }

  lemma LowerAfterLocal(local: string, d1: string, d2: string)
    requires Text.Lower(d1) == Text.Lower(d2)
    ensures Text.LowerAfter(local + ['@'] + d1, |local|) == Text.LowerAfter(local + ['@'] + d2, |local|)
  {
    var e1, e2 := local + ['@'] + d1, local + ['@'] + d2;
    var n := |local|;
    assert |d1| == |Text.Lower(d1)| == |d2|;
    forall i | 0 <= i < |e1| ensures Text.LowerAfter(e1, n)[i] == Text.LowerAfter(e2, n)[i] {
      if i > n {
        assert e1[i] == d1[i - n - 1] && e2[i] == d2[i - n - 1];
        assert Text.Lower(d1)[i - n - 1] == Text.Lower(d2)[i - n - 1];
      } else {
        assert e1[i] == e2[i];
      }
    }
  }

  /** An address whose domain is already lower case is stored as given. */
  lemma NormalizeEmailLowerDomain(local: string, domain: string)
    requires local != [] && !Text.IsSpace(local[0])
    requires domain != [] && !Text.IsSpace(domain[|domain| - 1]) && '@' !in domain
    requires Text.Lower(domain) == domain
    ensures NormalizeEmail(local + ['@'] + domain) == local + ['@'] + domain
  {
    SplitAddress(local, domain);
    Text.LowerAfterLowered(local, domain);
  }

  /** Addresses that differ only in the case of their domain are stored alike. */
  lemma NormalizeEmailFoldsDomain(local: string, d1: string, d2: string)
    requires local != [] && !Text.IsSpace(local[0])
    requires d1 != [] && d2 != [] && !Text.IsSpace(d1[|d1| - 1]) && !Text.IsSpace(d2[|d2| - 1])
    requires '@' !in d1 && '@' !in d2 && Text.Lower(d1) == Text.Lower(d2)
    ensures NormalizeEmail(local + ['@'] + d1) == NormalizeEmail(local + ['@'] + d2)
  {
    SplitAddress(local, d1);
    SplitAddress(local, d2);
    LowerAfterLocal(local, d1, d2);
  }

  /** A `UserStatus` row as the ORM object the consumer loads and saves. */
  class UserStatus {
    var isOnline: bool
    var lastSeen: Option<Time>

    function View(): Presence
      reads this
    {
      Presence(isOnline, lastSeen)
    }

    /** An instance loaded from a stored row. */
    constructor (row: Presence)
      ensures View() == row
    {
      isOnline := row.isOnline;
      lastSeen := row.lastSeen;
    }

    method GoOnline()
      modifies this
      ensures View() == WentOnline(old(View()))
    {
      isOnline := true;
    }

    method GoOffline(now: Time)
      modifies this
      ensures View() == WentOffline(old(View()), now)
    {
      isOnline := false;
      lastSeen := Some(now);
    }
  }
}
