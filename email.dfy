/**
 `get_valid_email` from scraper.py: seven address patterns built from a first
 name, a last name and a domain, tried in a fixed order against an external
 deliverability check; the first one accepted wins.

 The check (`validate_email(address, verify=True)`, a DNS/SMTP probe) is the
 parameter `verify`. It either answers truthy, answers falsy (False or None),
 or raises; the source swallows the exception and moves to the next pattern.
 */
module EmailGuess {
  import opened Wrappers
  import opened PyStr

  /** What one call of the deliverability check did. */
  datatype Verdict = Accepted | Rejected | Raised

  /** The pattern list of scraper.py, in its order: first.last, firstlast,
      f+last, first, last.first, lastfirst, last+f, each at `domain`. */
  function Candidates(first: string, last: string, domain: string): (r: seq<string>)
    requires first != []
    ensures |r| == 7
    ensures forall k :: 0 <= k < |r| ==> EndsWith(r[k], "@" + domain)
    ensures r[3] == first + "@" + domain
  {
    var at := "@" + domain;
    var f := [first[0]];
    [ first + "." + last + at,
      first + last + at,
      f + last + at,
      first + at,
      last + "." + first + at,
      last + first + at,
      last + f + at ]
  }

  /** The position of the first address `verify` accepts. */
  function FirstAccepted(addresses: seq<string>, verify: string -> Verdict): (r: Option<nat>)
    ensures r.Some? ==> r.value < |addresses| && verify(addresses[r.value]) == Accepted
    ensures r.Some? ==> forall j :: 0 <= j < r.value ==> verify(addresses[j]) != Accepted
    ensures r.None? ==> forall j :: 0 <= j < |addresses| ==> verify(addresses[j]) != Accepted
  {
    if addresses == [] then None
    else if verify(addresses[0]) == Accepted then Some(0)
    else match FirstAccepted(addresses[1..], verify)
      case None => None
      case Some(i) => Some(i + 1)
  }

  /** What `get_valid_email(first, last, domain)` returns. */
  function GuessedEmail(first: string, last: string, domain: string, verify: string -> Verdict): Option<string>
    requires domain == [] || first != []
  {
    if domain == [] then None
    else
      var patterns := Candidates(first, last, domain);
      match FirstAccepted(patterns, verify)
      case None => None
      case Some(i) => Some(patterns[i])
  }

  /** An empty domain yields no address. */
  lemma EmptyDomainGivesNone(first: string, last: string, verify: string -> Verdict)
    ensures GuessedEmail(first, last, [], verify) == None
  {
  }

  /** A returned address is one of the seven patterns, the check accepted it,
      it is at `domain`, and every pattern before it was turned down. */
  lemma GuessedEmailSound(first: string, last: string, domain: string, verify: string -> Verdict)
    requires domain == [] || first != []
    ensures GuessedEmail(first, last, domain, verify).Some? ==>
      exists i :: 0 <= i < 7 && GuessedEmail(first, last, domain, verify) == Some(Candidates(first, last, domain)[i])
        && verify(Candidates(first, last, domain)[i]) == Accepted
        && forall j :: 0 <= j < i ==> verify(Candidates(first, last, domain)[j]) != Accepted
    ensures GuessedEmail(first, last, domain, verify).Some? ==>
      && domain != []
      && GuessedEmail(first, last, domain, verify).value in Candidates(first, last, domain)
      && verify(GuessedEmail(first, last, domain, verify).value) == Accepted
      && EndsWith(GuessedEmail(first, last, domain, verify).value, "@" + domain)
  {
    if domain != [] {
      var patterns := Candidates(first, last, domain);
      match FirstAccepted(patterns, verify)
      case None =>
      case Some(i) =>
        assert GuessedEmail(first, last, domain, verify) == Some(patterns[i]);
    }
  }

  /** No address comes back exactly when the domain is empty or the check
      accepted none of the seven patterns. */
  lemma GuessedEmailNone(first: string, last: string, domain: string, verify: string -> Verdict)
    requires domain == [] || first != []
    ensures GuessedEmail(first, last, domain, verify).None? <==>
      domain == [] || forall j :: 0 <= j < 7 ==> verify(Candidates(first, last, domain)[j]) != Accepted
  {
    if domain != [] {
      var patterns := Candidates(first, last, domain);
      if FirstAccepted(patterns, verify).Some? {
        var i := FirstAccepted(patterns, verify).value;
        assert verify(patterns[i]) == Accepted;
      }
    }
  }

  /** Priority: the pattern at position `i` is the answer as soon as the check
      accepts it and turned down every pattern before it, whatever it would
      say about the later ones. */
  lemma EarliestAcceptedWins(first: string, last: string, domain: string, verify: string -> Verdict, i: nat)
    requires domain != [] && first != []
    requires i < 7 && verify(Candidates(first, last, domain)[i]) == Accepted
    requires forall j :: 0 <= j < i ==> verify(Candidates(first, last, domain)[j]) != Accepted
    ensures GuessedEmail(first, last, domain, verify) == Some(Candidates(first, last, domain)[i])
  {
    var patterns := Candidates(first, last, domain);
    var k := FirstAccepted(patterns, verify);
  }

  /** `get_valid_email`. Besides the answer it returns the addresses it handed
      to the check, in order: that is the DNS/SMTP traffic it causes. */
  method GetValidEmail(first: string, last: string, domain: string, verify: string -> Verdict)
    returns (email: Option<string>, consulted: seq<string>)
    requires domain == [] || first != []
    ensures email == GuessedEmail(first, last, domain, verify)
    ensures domain == [] ==> consulted == []
    ensures domain != [] ==> |consulted| <= 7 && consulted == Candidates(first, last, domain)[..|consulted|]
    ensures email.Some? ==> consulted != [] && email.value == consulted[|consulted| - 1]
    ensures domain != [] && email.None? ==> consulted == Candidates(first, last, domain)
    ensures forall j :: 0 <= j < |consulted| && (email.None? || j < |consulted| - 1) ==>
      verify(consulted[j]) != Accepted
  {
    if domain == [] {
      return None, [];
    }
    var patterns := Candidates(first, last, domain);
    consulted := [];
    var k := 0;
    while k < |patterns|
      invariant 0 <= k <= |patterns|
      invariant consulted == patterns[..k]
      invariant forall j :: 0 <= j < k ==> verify(patterns[j]) != Accepted
    {
      var address := patterns[k];
      consulted := consulted + [address];
      // Rejected and Raised alike move on to the next pattern.
      assert consulted == patterns[..k + 1];
      if verify(address) == Accepted {
        EarliestAcceptedWins(first, last, domain, verify, k);
        return Some(address), consulted;
      }
      k := k + 1;
    }
    assert consulted == patterns;
    GuessedEmailNone(first, last, domain, verify);
    return None, consulted;
  }
}
