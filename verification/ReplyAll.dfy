/**
  The recipients of a reply in MCMessageHeader.cpp. Mailboxes are compared through `lower`, which
  stands for the lower case of a string; two are equal ignoring case when their lower cases are.
 */
module ReplyAll {
  import opened Basics

  datatype Address = Address(displayName: string, mailbox: string)

  type Lower = string -> string

  datatype Header = Header(from: Option<Address>, sender: Option<Address>, to: Option<seq<Address>>,
                           cc: Option<seq<Address>>, replyTo: Option<seq<Address>>)

  function Listed(addresses: Option<seq<Address>>): seq<Address> {
    if addresses.Some? then addresses.value else []
  }

  // ----- what the fields of a reply are

  /** The mailboxes of addresses, ignoring case. */
  function Mailboxes(addresses: seq<Address>, lower: Lower): set<string> {
    set a | a in addresses :: lower(a.mailbox)
  }

  /** The addresses whose mailbox is neither in `seen` nor that of an address before them. */
  function Kept(addresses: seq<Address>, seen: set<string>, lower: Lower): seq<Address> {
    if |addresses| == 0 then []
    else
      var before, a := Kept(addresses[..|addresses| - 1], seen, lower), addresses[|addresses| - 1];
      if lower(a.mailbox) in seen + Mailboxes(before, lower) then before else before + [a]
  }

  /** Whether the mailbox of the author or of the sender is among the given ones. */
  predicate ContainsSender(h: Header, senderEmails: Option<seq<Address>>, lower: Lower) {
    var own := Mailboxes(Listed(senderEmails), lower);
    (h.from.Some? && lower(h.from.value.mailbox) in own) || (h.sender.Some? && lower(h.sender.value.mailbox) in own)
  }

  predicate IsFrom(h: Header, a: Address, lower: Lower) {
    h.from.Some? && lower(a.mailbox) == lower(h.from.value.mailbox)
  }

  /** The To field of the user's own message: its recipients, those to reply to in place of its author. */
  function OwnTo(h: Header, to: seq<Address>, lower: Lower): seq<Address> {
    if |to| == 0 then []
    else
      var before, a := OwnTo(h, to[..|to| - 1], lower), to[|to| - 1];
      if lower(a.mailbox) in Mailboxes(before, lower) then before
      else if IsFrom(h, a, lower) then before + Listed(h.replyTo)
      else before + [a]
  }

  /** Whether some recipient of the user's own message was not passed over. */
  predicate OwnHasTo(h: Header, to: seq<Address>, lower: Lower) {
    |to| > 0 && (OwnHasTo(h, to[..|to| - 1], lower) ||
                 lower(to[|to| - 1].mailbox) !in Mailboxes(OwnTo(h, to[..|to| - 1], lower), lower))
  }

  /** The To and the Cc field of a reply; `None` is a field that is not there. */
  datatype Fields = Fields(to: Option<seq<Address>>, cc: Option<seq<Address>>)

  /** The reply to the user's own message. */
  function OwnReply(h: Header, replyAll: bool, lower: Lower): Fields {
    var to := OwnTo(h, Listed(h.to), lower);
    var cc := if replyAll then Kept(Listed(h.cc), Mailboxes(to, lower), lower) else [];
    if OwnHasTo(h, Listed(h.to), lower) then Fields(Some(to), if |cc| > 0 then Some(cc) else None)
    else if |cc| > 0 then Fields(None, Some(cc))
    else Fields(if h.from.Some? then Some([h.from.value]) else None, None)
  }

  /** The reply to someone else's message. */
  function OthersReply(h: Header, replyAll: bool, senderEmails: Option<seq<Address>>, lower: Lower): Fields {
    var to :=
      if |Listed(h.replyTo)| > 0 then h.replyTo
      else if h.from.Some? then Some([h.from.value])
      else None;
    var seen := Mailboxes(Listed(senderEmails), lower) + Mailboxes(Listed(to), lower);
    var cc := if replyAll then Kept(Listed(h.to) + Listed(h.cc), seen, lower) else [];
    Fields(to, if |cc| > 0 then Some(cc) else None)
  }

  function Reply(h: Header, replyAll: bool, senderEmails: Option<seq<Address>>, lower: Lower): Fields {
    if ContainsSender(h, senderEmails, lower) then OwnReply(h, replyAll, lower)
    else OthersReply(h, replyAll, senderEmails, lower)
  }

  /** The user's own message names no author, and nobody that the reply could go to instead. */
  predicate LacksAuthor(h: Header, replyAll: bool, senderEmails: Option<seq<Address>>, lower: Lower) {
    && ContainsSender(h, senderEmails, lower) && h.from.None?
    && |Listed(h.to)| == 0 && (replyAll ==> |Listed(h.cc)| == 0)
  }

  // ----- what is true of them

  ghost predicate Distinct(addresses: seq<Address>, lower: Lower) {
    forall i, j :: 0 <= i < j < |addresses| ==> lower(addresses[i].mailbox) != lower(addresses[j].mailbox)
  }

  lemma MailboxesJoined(a: seq<Address>, b: seq<Address>, lower: Lower)
    ensures Mailboxes(a + b, lower) == Mailboxes(a, lower) + Mailboxes(b, lower)
  {
    assert forall x :: x in a + b <==> x in a || x in b;
  }

  lemma MailboxesGrow(addresses: seq<Address>, a: Address, lower: Lower)
    ensures Mailboxes(addresses + [a], lower) == Mailboxes(addresses, lower) + {lower(a.mailbox)}
  {
    MailboxesJoined(addresses, [a], lower);
    assert Mailboxes([a], lower) == {lower(a.mailbox)};
  }

  lemma DistinctGrows(addresses: seq<Address>, a: Address, lower: Lower)
    requires Distinct(addresses, lower) && lower(a.mailbox) !in Mailboxes(addresses, lower)
    ensures Distinct(addresses + [a], lower)
  {
    assert forall i :: 0 <= i < |addresses| ==> lower(addresses[i].mailbox) in Mailboxes(addresses, lower);
  }

  /** Kept addresses are distinct, come from the list, avoid what was seen, and leave no other mailbox out. */
  lemma {:induction false} KeptHolds(addresses: seq<Address>, seen: set<string>, lower: Lower)
    ensures var kept := Kept(addresses, seen, lower);
            && Distinct(kept, lower)
            && (forall a :: a in kept ==> a in addresses)
            && Mailboxes(kept, lower) == Mailboxes(addresses, lower) - seen
  {
    if |addresses| == 0 {
    } else {
      var n := |addresses| - 1;
      var before, a := Kept(addresses[..n], seen, lower), addresses[n];
      KeptHolds(addresses[..n], seen, lower);
      assert addresses == addresses[..n] + [a];
      MailboxesGrow(addresses[..n], a, lower);
      MailboxesGrow(before, a, lower);
      hide Mailboxes;
      if lower(a.mailbox) !in seen + Mailboxes(before, lower) {
        DistinctGrows(before, a, lower);
      }
      hide Distinct;
    }
  }

  /**
    In every reply, the Cc mailboxes are distinct ignoring case and none of them is in the To field;
    without replying to all there are none.
   */
  lemma CcIsClean(h: Header, replyAll: bool, senderEmails: Option<seq<Address>>, lower: Lower)
    ensures var r := Reply(h, replyAll, senderEmails, lower);
            && Distinct(Listed(r.cc), lower)
            && Mailboxes(Listed(r.cc), lower) !! Mailboxes(Listed(r.to), lower)
            && (!replyAll ==> r.cc.None?)
  {
    var own := OwnTo(h, Listed(h.to), lower);
    KeptHolds(Listed(h.cc), Mailboxes(own, lower), lower);
    var r := OthersReply(h, replyAll, senderEmails, lower);
    KeptHolds(Listed(h.to) + Listed(h.cc),
              Mailboxes(Listed(senderEmails), lower) + Mailboxes(Listed(r.to), lower), lower);
    hide Kept, OwnTo, OwnHasTo, ContainsSender;
  }

  /**
    In a reply to all of someone else's message, no excluded mailbox is in Cc, and every recipient
    of the message that is not excluded is in To or Cc; Cc holds nobody but recipients.
   */
  lemma NobodyIsLost(h: Header, senderEmails: Option<seq<Address>>, lower: Lower)
    requires !ContainsSender(h, senderEmails, lower)
    ensures var r := Reply(h, true, senderEmails, lower);
            && Mailboxes(Listed(r.cc), lower) == Mailboxes(Listed(h.to) + Listed(h.cc), lower)
                                                 - Mailboxes(Listed(senderEmails), lower)
                                                 - Mailboxes(Listed(r.to), lower)
            && (forall a :: a in Listed(r.cc) ==> a in Listed(h.to) || a in Listed(h.cc))
  {
    var r := OthersReply(h, true, senderEmails, lower);
    KeptHolds(Listed(h.to) + Listed(h.cc),
              Mailboxes(Listed(senderEmails), lower) + Mailboxes(Listed(r.to), lower), lower);
    hide Kept, ContainsSender;
  }

  lemma NoneBefore(h: Header, lower: Lower)
    ensures OwnTo(h, [], lower) == [] && Mailboxes([], lower) == {}
  {
  }

  /** Of the recipients of the user's own message only its author is replaced. */
  lemma {:induction false} OwnToHolds(h: Header, to: seq<Address>, lower: Lower)
    ensures forall a :: a in to && !IsFrom(h, a, lower) ==> lower(a.mailbox) in Mailboxes(OwnTo(h, to, lower), lower)
  {
    hide Mailboxes, IsFrom;
    if |to| == 0 {
    } else {
      var n := |to| - 1;
      OwnToHolds(h, to[..n], lower);
      var before, a := OwnTo(h, to[..n], lower), to[n];
      assert to == to[..n] + [a];
      MailboxesGrow(before, a, lower);
      MailboxesJoined(before, Listed(h.replyTo), lower);
    }
  }

  lemma {:induction false} OwnHasToIff(h: Header, to: seq<Address>, lower: Lower)
    ensures OwnHasTo(h, to, lower) <==> |to| > 0
  {
    hide Mailboxes, OwnTo;
    if |to| == 0 {
    } else {
      OwnHasToIff(h, to[..|to| - 1], lower);
      NoneBefore(h, lower);
      assert |to| == 1 ==> to[..|to| - 1] == [];
    }
  }

  /** All of them are the author of the message. */
  predicate AllFrom(h: Header, to: seq<Address>, lower: Lower) {
    forall a :: a in to ==> IsFrom(h, a, lower)
  }

  lemma AllFromStep(h: Header, to: seq<Address>, lower: Lower)
    ensures |to| == 0 ==> AllFrom(h, to, lower)
    ensures |to| > 0 ==>
              (AllFrom(h, to, lower) <==> AllFrom(h, to[..|to| - 1], lower) && IsFrom(h, to[|to| - 1], lower))
  {
    hide IsFrom;
    if |to| > 0 {
      var n := |to| - 1;
      assert forall a :: a in to <==> a in to[..n] || a == to[n];
    }
  }

  lemma {:induction false} OwnToIsEmptyIff(h: Header, to: seq<Address>, lower: Lower)
    ensures |OwnTo(h, to, lower)| == 0 <==> AllFrom(h, to, lower) && (|to| > 0 ==> |Listed(h.replyTo)| == 0)
  {
    hide Mailboxes, IsFrom, AllFrom, Listed;
    AllFromStep(h, to, lower);
    if |to| == 0 {
    } else {
      var n := |to| - 1;
      OwnToIsEmptyIff(h, to[..n], lower);
      NoneBefore(h, lower);
      assert |OwnTo(h, to[..n], lower)| == 0 ==> OwnTo(h, to[..n], lower) == [];
    }
  }

  /** In a reply to all of the user's own message, every recipient of it but its author is in To or Cc. */
  lemma OwnRecipientsStay(h: Header, senderEmails: Option<seq<Address>>, lower: Lower, a: Address)
    requires ContainsSender(h, senderEmails, lower)
    requires (a in Listed(h.to) && !IsFrom(h, a, lower)) || a in Listed(h.cc)
    ensures var r := Reply(h, true, senderEmails, lower);
            lower(a.mailbox) in Mailboxes(Listed(r.to), lower) + Mailboxes(Listed(r.cc), lower)
  {
    var to := OwnTo(h, Listed(h.to), lower);
    OwnToHolds(h, Listed(h.to), lower);
    OwnHasToIff(h, Listed(h.to), lower);
    OwnToIsEmptyIff(h, Listed(h.to), lower);
    KeptHolds(Listed(h.cc), Mailboxes(to, lower), lower);
    hide Kept, OwnTo, OwnHasTo, ContainsSender;
  }

  /**
    The reply to the user's own message falls back to its author only when there was nobody to
    reply to; a message that its author sent to no one else gets a reply without any recipient.
   */
  lemma NobodyToReplyToIff(h: Header, replyAll: bool, senderEmails: Option<seq<Address>>, lower: Lower)
    requires ContainsSender(h, senderEmails, lower) && h.from.Some?
    ensures var r := Reply(h, replyAll, senderEmails, lower);
            |Listed(r.to)| == 0 && |Listed(r.cc)| == 0 <==>
            && |Listed(h.to)| > 0 && AllFrom(h, Listed(h.to), lower)
            && |Listed(h.replyTo)| == 0
            && (replyAll ==> |Listed(h.cc)| == 0)
  {
    var to := OwnTo(h, Listed(h.to), lower);
    OwnToHolds(h, Listed(h.to), lower);
    OwnHasToIff(h, Listed(h.to), lower);
    OwnToIsEmptyIff(h, Listed(h.to), lower);
    KeptHolds(Listed(h.cc), Mailboxes(to, lower), lower);
    if |to| == 0 && |Listed(h.cc)| > 0 {
      assert lower(Listed(h.cc)[0].mailbox) in Mailboxes(Listed(h.cc), lower);
    }
    hide Kept, OwnTo, OwnHasTo, ContainsSender;
  }

  /** Whether a message is the user's own: the author or the sender has one of the given addresses, ignoring case. */
  lemma ContainsSenderIff(h: Header, senderEmails: Option<seq<Address>>, lower: Lower)
    ensures ContainsSender(h, senderEmails, lower) <==>
            exists e ::
              && e in Listed(senderEmails)
              && (   (h.from.Some? && lower(e.mailbox) == lower(h.from.value.mailbox))
                  || (h.sender.Some? && lower(e.mailbox) == lower(h.sender.value.mailbox)))
  {
  }

  /**
    The To field of a reply to someone else's message is its Reply-To if that names anybody, else its
    author; it is missing only when neither is there.
   */
  lemma OthersToMeans(h: Header, replyAll: bool, senderEmails: Option<seq<Address>>, lower: Lower)
    requires !ContainsSender(h, senderEmails, lower)
    ensures var r := Reply(h, replyAll, senderEmails, lower);
            && (|Listed(h.replyTo)| > 0 ==> Listed(r.to) == Listed(h.replyTo))
            && (|Listed(h.replyTo)| == 0 && h.from.Some? ==> Listed(r.to) == [h.from.value])
            && (r.to.None? <==> |Listed(h.replyTo)| == 0 && h.from.None?)
  {
    hide ContainsSender, Kept;
  }

  lemma {:induction false} OwnToComesFrom(h: Header, to: seq<Address>, lower: Lower, a: Address)
    requires a in OwnTo(h, to, lower)
    ensures (a in to && !IsFrom(h, a, lower)) || a in Listed(h.replyTo)
  {
    hide Mailboxes, IsFrom, OwnTo, OwnHasTo, Listed;
    OwnStarts(h, lower);
    assert |to| == 0 ==> to == [];
    if |to| == 0 {
    } else {
      var n := |to| - 1;
      OwnStep(h, to, n, lower);
      assert to[..n + 1] == to == to[..n] + [to[n]];
      if a in OwnTo(h, to[..n], lower) {
        OwnToComesFrom(h, to[..n], lower, a);
      }
    }
  }

  /** Before anything is replaced, the author is not among those replied to, so his first place is taken by Reply-To. */
  lemma {:induction false} AuthorIsReplaced(h: Header, to: seq<Address>, lower: Lower)
    ensures (exists a :: a in to && IsFrom(h, a, lower)) ==>
              forall b :: b in Listed(h.replyTo) ==> b in OwnTo(h, to, lower)
    ensures (forall a :: a in to ==> !IsFrom(h, a, lower)) ==>
              forall b :: b in OwnTo(h, to, lower) ==> !IsFrom(h, b, lower)
  {
    hide Mailboxes, IsFrom;
    if |to| == 0 {
    } else {
      var n := |to| - 1;
      var before, a := OwnTo(h, to[..n], lower), to[n];
      assert to == to[..n] + [a];
      AuthorIsReplaced(h, to[..n], lower);
      if IsFrom(h, a, lower) && (forall b :: b in to[..n] ==> !IsFrom(h, b, lower)) {
        NoAuthorAmong(h, before, a, lower);
      }
    }
  }

  lemma NoAuthorAmong(h: Header, addresses: seq<Address>, a: Address, lower: Lower)
    requires IsFrom(h, a, lower) && forall b :: b in addresses ==> !IsFrom(h, b, lower)
    ensures lower(a.mailbox) !in Mailboxes(addresses, lower)
  {
  }

  /**
    Everybody in the To field of a reply to the user's own message is a recipient of it other than its
    author, or named by its Reply-To, which stands for the author, or, if there is nobody else, the author;
    and everybody named by Reply-To is in To where the author was a recipient.
   */
  lemma OwnToMeans(h: Header, replyAll: bool, senderEmails: Option<seq<Address>>, lower: Lower, a: Address)
    requires ContainsSender(h, senderEmails, lower)
    ensures var r := Reply(h, replyAll, senderEmails, lower);
            && (a in Listed(r.to) ==>
                  || (a in Listed(h.to) && !IsFrom(h, a, lower)) || a in Listed(h.replyTo)
                  || (|Listed(h.to)| == 0 && r.cc.None? && Some(a) == h.from))
            && (a in Listed(h.replyTo) && (exists b :: b in Listed(h.to) && IsFrom(h, b, lower)) ==> a in Listed(r.to))
            && (a in Listed(h.to) && !IsFrom(h, a, lower) ==> lower(a.mailbox) in Mailboxes(Listed(r.to), lower))
  {
    hide ContainsSender, OwnTo, OwnHasTo, Kept, IsFrom, Mailboxes;
    var to := OwnTo(h, Listed(h.to), lower);
    OwnHasToIff(h, Listed(h.to), lower);
    OwnToHolds(h, Listed(h.to), lower);
    AuthorIsReplaced(h, Listed(h.to), lower);
    if a in to {
      OwnToComesFrom(h, Listed(h.to), lower, a);
    }
  }

  /** An address is kept exactly if its mailbox was not seen and none before it has the same one. */
  lemma KeptIsFilter(addresses: seq<Address>, n: nat, seen: set<string>, lower: Lower)
    requires n < |addresses|
    ensures Kept([], seen, lower) == []
    ensures Kept(addresses[..n + 1], seen, lower) ==
            Kept(addresses[..n], seen, lower) +
            (if lower(addresses[n].mailbox) in seen + Mailboxes(addresses[..n], lower) then [] else [addresses[n]])
  {
    hide Mailboxes;
    KeptHolds(addresses[..n], seen, lower);
    assert addresses[..n + 1][..n] == addresses[..n];
  }

  /** Exactly when the reply would go to an author who is not there, and `[from]` holds a null reference. */
  lemma LacksAuthorIff(h: Header, replyAll: bool, senderEmails: Option<seq<Address>>, lower: Lower)
    ensures LacksAuthor(h, replyAll, senderEmails, lower) <==>
            var r := Reply(h, replyAll, senderEmails, lower);
            ContainsSender(h, senderEmails, lower) && r.to.None? && r.cc.None?
  {
    hide ContainsSender, OwnTo, OwnHasTo, Kept, Mailboxes;
    var to := OwnTo(h, Listed(h.to), lower);
    OwnHasToIff(h, Listed(h.to), lower);
    KeptHolds(Listed(h.cc), Mailboxes(to, lower), lower);
    NoneBefore(h, lower);
    NoMailboxIff(Listed(h.cc), lower);
    NoMailboxIff(Kept(Listed(h.cc), Mailboxes(to, lower), lower), lower);
    assert |Listed(h.to)| == 0 ==> Listed(h.to) == [];
  }

  lemma NoMailboxIff(addresses: seq<Address>, lower: Lower)
    ensures Mailboxes(addresses, lower) == {} <==> |addresses| == 0
  {
    if |addresses| > 0 {
      assert lower(addresses[0].mailbox) in Mailboxes(addresses, lower);
    }
  }

  /** A message with a Sender among the given addresses, and without From, To and Cc. */
  lemma AuthorMayBeLacking(me: Address, lower: Lower)
    ensures LacksAuthor(Header(None, Some(me), None, None, None), true, Some([me]), lower)
  {
    assert me in [me];
  }

  // ----- the method

  /**
    Adds the addresses whose mailbox was not added before; `first` were gone through before, with `seen`
    at the start.
   */
  method AddNew(addresses: seq<Address>, recipient: seq<Address>, addedAddresses: set<string>, lower: Lower,
                ghost first: seq<Address>, ghost seen: set<string>)
    returns (grown: seq<Address>, added: set<string>)
    requires recipient == Kept(first, seen, lower) && addedAddresses == seen + Mailboxes(recipient, lower)
    ensures grown == Kept(first + addresses, seen, lower) && added == seen + Mailboxes(grown, lower)
  {
    hide Kept, Mailboxes;
    grown, added := recipient, addedAddresses;
    assert first + addresses[..0] == first;
    for i := 0 to |addresses|
      invariant grown == Kept(first + addresses[..i], seen, lower) && added == seen + Mailboxes(grown, lower)
    {
      var address := addresses[i];
      KeptGrows(first, addresses, i, seen, lower);
      if lower(address.mailbox) in added {
        continue;
      }
      MailboxesGrow(grown, address, lower);
      grown := grown + [address];
      added := added + {lower(address.mailbox)};
    }
    assert addresses[..|addresses|] == addresses;
  }

  lemma KeptGrows(first: seq<Address>, addresses: seq<Address>, i: nat, seen: set<string>, lower: Lower)
    requires i < |addresses|
    ensures var before, a := Kept(first + addresses[..i], seen, lower), addresses[i];
            Kept(first + addresses[..i + 1], seen, lower) ==
            if lower(a.mailbox) in seen + Mailboxes(before, lower) then before else before + [a]
  {
    var all := first + addresses[..i + 1];
    assert all[..|all| - 1] == first + addresses[..i];
    hide Mailboxes;
  }

  /** The To field of the user's own message. */
  method AddOwn(h: Header, to: seq<Address>, lower: Lower)
    returns (recipient: seq<Address>, addedAddresses: set<string>, hasTo: bool)
    ensures recipient == OwnTo(h, to, lower) && addedAddresses == Mailboxes(recipient, lower)
    ensures hasTo == OwnHasTo(h, to, lower)
  {
    hide Mailboxes, OwnTo, OwnHasTo;
    recipient, addedAddresses, hasTo := [], {}, false;
    OwnStarts(h, lower);
    assert to[..0] == [];
    for i := 0 to |to|
      invariant recipient == OwnTo(h, to[..i], lower) && addedAddresses == Mailboxes(recipient, lower)
      invariant hasTo == OwnHasTo(h, to[..i], lower)
    {
      var address := to[i];
      OwnStep(h, to, i, lower);
      if lower(address.mailbox) in addedAddresses {
        continue;
      }
      if h.from.Some? && lower(address.mailbox) == lower(h.from.value.mailbox) {
        var replyTo := Listed(h.replyTo);
        MailboxesJoined(recipient, replyTo, lower);
        recipient := recipient + replyTo;
        addedAddresses := AddAll(replyTo, addedAddresses, lower);
      } else {
        MailboxesGrow(recipient, address, lower);
        recipient := recipient + [address];
        addedAddresses := addedAddresses + {lower(address.mailbox)};
      }
      hasTo := true;
    }
    assert to[..|to|] == to;
  }

  /** Adds the mailboxes of addresses to those added before. */
  method AddAll(addresses: seq<Address>, addedAddresses: set<string>, lower: Lower) returns (added: set<string>)
    ensures added == addedAddresses + Mailboxes(addresses, lower)
  {
    added := addedAddresses;
    for j := 0 to |addresses|
      invariant added == addedAddresses + Mailboxes(addresses[..j], lower)
    {
      MailboxesGrow(addresses[..j], addresses[j], lower);
      assert addresses[..j + 1] == addresses[..j] + [addresses[j]];
      added := added + {lower(addresses[j].mailbox)};
    }
    assert addresses[..|addresses|] == addresses;
  }

  lemma OwnStarts(h: Header, lower: Lower)
    ensures OwnTo(h, [], lower) == [] && !OwnHasTo(h, [], lower) && Mailboxes([], lower) == {}
  {
  }

  lemma OwnStep(h: Header, to: seq<Address>, i: nat, lower: Lower)
    requires i < |to|
    ensures var before, a := OwnTo(h, to[..i], lower), to[i];
            && OwnTo(h, to[..i + 1], lower) == (if lower(a.mailbox) in Mailboxes(before, lower) then before
                                               else if IsFrom(h, a, lower) then before + Listed(h.replyTo)
                                               else before + [a])
            && OwnHasTo(h, to[..i + 1], lower) ==
               (OwnHasTo(h, to[..i], lower) || lower(a.mailbox) !in Mailboxes(before, lower))
  {
    assert to[..i + 1][..i] == to[..i];
    hide Mailboxes, IsFrom;
  }

  method HasSender(h: Header, senderEmails: Option<seq<Address>>, lower: Lower)
    returns (containsSender: bool, senderEmailsMailboxes: set<string>)
    ensures containsSender == ContainsSender(h, senderEmails, lower)
    ensures senderEmailsMailboxes == Mailboxes(Listed(senderEmails), lower)
  {
    hide Mailboxes;
    OwnStarts(h, lower);
    containsSender, senderEmailsMailboxes := false, {};
    if senderEmails.Some? {
      senderEmailsMailboxes := AddAll(senderEmails.value, {}, lower);
      if h.from.Some? && lower(h.from.value.mailbox) in senderEmailsMailboxes {
        containsSender := true;
      }
      if h.sender.Some? && lower(h.sender.value.mailbox) in senderEmailsMailboxes {
        containsSender := true;
      }
    }
  }

  method RecipientWithReplyAll(h: Header, replyAll: bool, includeTo: bool, includeCc: bool,
                               senderEmails: Option<seq<Address>>, lower: Lower)
    returns (result: seq<Address>)
    requires !LacksAuthor(h, replyAll, senderEmails, lower)
    ensures var r := Reply(h, replyAll, senderEmails, lower);
            result == (if includeTo then Listed(r.to) else []) + (if includeCc then Listed(r.cc) else [])
  {
    hide ContainsSender, OwnReply, OthersReply, Mailboxes;
    LacksAuthorIff(h, replyAll, senderEmails, lower);
    var containsSender, senderEmailsMailboxes := HasSender(h, senderEmails, lower);
    var hasTo, hasCc := false, false;
    var toField: seq<Address>, ccField: seq<Address> := [], [];
    if containsSender {
      hasTo, toField, hasCc, ccField := OwnFields(h, replyAll, lower);
    } else {
      hasTo, toField, hasCc, ccField := OthersFields(h, replyAll, senderEmails, senderEmailsMailboxes, lower);
    }
    result := [];
    if hasTo && includeTo {
      result := result + toField;
    }
    if hasCc && includeCc {
      result := result + ccField;
    }
  }

  method OwnFields(h: Header, replyAll: bool, lower: Lower)
    returns (hasTo: bool, toField: seq<Address>, hasCc: bool, ccField: seq<Address>)
    requires h.from.None? ==> OwnReply(h, replyAll, lower) != Fields(None, None)
    ensures OwnReply(h, replyAll, lower) ==
            Fields(if hasTo then Some(toField) else None, if hasCc then Some(ccField) else None)
  {
    hide Kept, OwnTo, OwnHasTo, Mailboxes;
    var addedAddresses;
    toField, addedAddresses, hasTo := AddOwn(h, Listed(h.to), lower);
    hasCc, ccField := false, [];
    if replyAll {
      NothingKept(addedAddresses, lower);
      assert [] + Listed(h.cc) == Listed(h.cc);
      ccField, addedAddresses := AddNew(Listed(h.cc), [], addedAddresses, lower, [], addedAddresses);
      hasCc := |ccField| > 0;
    }
    if !hasTo && !hasCc {
      hasTo := true;
      toField := [h.from.value];
    }
  }

  lemma NothingKept(seen: set<string>, lower: Lower)
    ensures Kept([], seen, lower) == [] && Mailboxes([], lower) == {}
  {
  }

  method OthersFields(h: Header, replyAll: bool, senderEmails: Option<seq<Address>>,
                      senderEmailsMailboxes: set<string>, lower: Lower)
    returns (hasTo: bool, toField: seq<Address>, hasCc: bool, ccField: seq<Address>)
    requires senderEmailsMailboxes == Mailboxes(Listed(senderEmails), lower)
    ensures OthersReply(h, replyAll, senderEmails, lower) ==
            Fields(if hasTo then Some(toField) else None, if hasCc then Some(ccField) else None)
  {
    hide Kept, Mailboxes;
    hasTo, toField, hasCc, ccField := false, [], false, [];
    var addedAddresses := senderEmailsMailboxes;
    if h.replyTo.Some? && |h.replyTo.value| > 0 {
      hasTo, toField := true, h.replyTo.value;
      addedAddresses := AddAll(toField, addedAddresses, lower);
    } else if h.from.Some? {
      hasTo, toField := true, [h.from.value];
      addedAddresses := AddAll(toField, addedAddresses, lower);
    }
    NothingKept(addedAddresses, lower);
    if replyAll {
      ghost var seen := addedAddresses;
      assert [] + Listed(h.to) == Listed(h.to);
      ccField, addedAddresses := AddNew(Listed(h.to), [], addedAddresses, lower, [], seen);
      ccField, addedAddresses := AddNew(Listed(h.cc), ccField, addedAddresses, lower, Listed(h.to), seen);
      hasCc := |ccField| > 0;
    }
  }

  /** The To and the Cc of a reply, each from a call of its own. */
  method ReplyRecipients(h: Header, replyAll: bool, excluded: Option<seq<Address>>, lower: Lower)
    returns (to: seq<Address>, cc: seq<Address>)
    requires !LacksAuthor(h, replyAll, excluded, lower)
    ensures to == Listed(Reply(h, replyAll, excluded, lower).to) && cc == Listed(Reply(h, replyAll, excluded, lower).cc)
    ensures Distinct(cc, lower) && Mailboxes(cc, lower) !! Mailboxes(to, lower)
  {
    hide Reply, Mailboxes, Distinct, LacksAuthor;
    CcIsClean(h, replyAll, excluded, lower);
    to := RecipientWithReplyAll(h, replyAll, true, false, excluded, lower);
    cc := RecipientWithReplyAll(h, replyAll, false, true, excluded, lower);
  }
}
