/**
 src/memo.rs: the preimage of a leaf hash is a type byte followed by the fields of the
 event.  Strings stand for their UTF-8 bytes.
 */
module Memo {
  import opened Bytes
  import opened Fields
  import opened Merkle
  import opened Results

  /** The events that are hashed to leaves: every type but MERKLE_ROOT (0x09). */
  datatype Event =
    | ProgramEntry(wallet: ByteString)
    | OwnershipAttest(wallet: ByteString, serial: ByteString)
    | ContractAnchor(serial: ByteString, contract: ByteString)
    | Deployment(serial: ByteString, facility: ByteString, timestamp: nat)
    | HostingPayment(serial: ByteString, month: nat, year: nat)
    | ShieldRenewal(wallet: ByteString, year: nat)
    | Transfer(oldWallet: ByteString, newWallet: ByteString, serial: ByteString)
    | Exit(wallet: ByteString, serial: ByteString, timestamp: nat)
    | StakingDeposit(wallet: ByteString, amount: nat, validator: ByteString)
    | StakingWithdraw(wallet: ByteString, amount: nat, validator: ByteString)
    | StakingReward(wallet: ByteString, amount: nat, epoch: nat)
    | GovernanceProposal(wallet: ByteString, proposal: ByteString, contentHash: ByteString)
    | GovernanceVote(wallet: ByteString, proposal: ByteString, commitment: ByteString)
    | GovernanceResult(wallet: ByteString, proposal: ByteString, resultHash: ByteString)
    | AgentRegister(agent: ByteString, pubkeyHash: ByteString, modelHash: ByteString, policyHash: ByteString)
    | AgentPolicy(agent: ByteString, version: nat, rulesHash: ByteString)
    | AgentAction(agent: ByteString, action: ByteString, inputHash: ByteString, outputHash: ByteString)

  function TypeByte(e: Event): byte {
    match e
    case ProgramEntry(_) => 0x01
    case OwnershipAttest(_, _) => 0x02
    case ContractAnchor(_, _) => 0x03
    case Deployment(_, _, _) => 0x04
    case HostingPayment(_, _, _) => 0x05
    case ShieldRenewal(_, _) => 0x06
    case Transfer(_, _, _) => 0x07
    case Exit(_, _, _) => 0x08
    case StakingDeposit(_, _, _) => 0x0A
    case StakingWithdraw(_, _, _) => 0x0B
    case StakingReward(_, _, _) => 0x0C
    case GovernanceProposal(_, _, _) => 0x0D
    case GovernanceVote(_, _, _) => 0x0E
    case GovernanceResult(_, _, _) => 0x0F
    case AgentRegister(_, _, _, _) => 0x40
    case AgentPolicy(_, _, _) => 0x41
    case AgentAction(_, _, _, _) => 0x42
  }

  /** The fields after the type byte, in hashing order; a PROGRAM_ENTRY has none of these. */
  function PayloadFields(e: Event): seq<Field> {
    match e
    case ProgramEntry(_) => []
    case OwnershipAttest(w, s) => [Short(w), Short(s)]
    case ContractAnchor(s, c) => [Short(s), Short(c)]
    case Deployment(s, f, t) => [Short(s), Short(f), U64(t)]
    case HostingPayment(s, m, y) => [Short(s), U32(m), U32(y)]
    case ShieldRenewal(w, y) => [Short(w), U32(y)]
    case Transfer(o, n, s) => [Short(o), Short(n), Short(s)]
    case Exit(w, s, t) => [Short(w), Short(s), U64(t)]
    case StakingDeposit(w, a, v) => [Short(w), U64(a), Short(v)]
    case StakingWithdraw(w, a, v) => [Short(w), U64(a), Short(v)]
    case StakingReward(w, a, ep) => [Short(w), U64(a), U32(ep)]
    case GovernanceProposal(w, p, h) => [Short(w), Short(p), Short(h)]
    case GovernanceVote(w, p, c) => [Short(w), Short(p), Short(c)]
    case GovernanceResult(w, p, r) => [Short(w), Short(p), Short(r)]
    case AgentRegister(a, k, m, p) => [Short(a), Short(k), Short(m), Short(p)]
    case AgentPolicy(a, v, r) => [Short(a), U32(v), Short(r)]
    case AgentAction(a, t, i, o) => [Short(a), Short(t), Short(i), Short(o)]
  }

  /** The bytes without a length prefix: the wallet hash of a PROGRAM_ENTRY. */
  function Unprefixed(e: Event): ByteString {
    if e.ProgramEntry? then e.wallet else []
  }

  /** What `length_prefix` and the integer types admit; longer fields make the program panic. */
  predicate Hashable(e: Event) {
    AllValid(PayloadFields(e))
  }

  function EventPreimage(e: Event): ByteString {
    EncodeAll([Tag(TypeByte(e))] + PayloadFields(e)) + Unprefixed(e)
  }

  /** A string behind its length in two bytes. */
  function Prefixed(s: ByteString): ByteString {
    TwoBytes(|s|) + s
  }

  /** The bytes that each event is hashed from, one by one. */
  function Layout(e: Event): ByteString {
    match e
    case ProgramEntry(w) => [0x01] + w
    case OwnershipAttest(w, s) => [0x02] + Prefixed(w) + Prefixed(s)
    case ContractAnchor(s, c) => [0x03] + Prefixed(s) + Prefixed(c)
    case Deployment(s, f, t) => [0x04] + Prefixed(s) + Prefixed(f) + EightBytes(t)
    case HostingPayment(s, m, y) => [0x05] + Prefixed(s) + FourBytes(m) + FourBytes(y)
    case ShieldRenewal(w, y) => [0x06] + Prefixed(w) + FourBytes(y)
    case Transfer(o, n, s) => [0x07] + Prefixed(o) + Prefixed(n) + Prefixed(s)
    case Exit(w, s, t) => [0x08] + Prefixed(w) + Prefixed(s) + EightBytes(t)
    case StakingDeposit(w, a, v) => [0x0A] + Prefixed(w) + EightBytes(a) + Prefixed(v)
    case StakingWithdraw(w, a, v) => [0x0B] + Prefixed(w) + EightBytes(a) + Prefixed(v)
    case StakingReward(w, a, ep) => [0x0C] + Prefixed(w) + EightBytes(a) + FourBytes(ep)
    case GovernanceProposal(w, p, h) => [0x0D] + Prefixed(w) + Prefixed(p) + Prefixed(h)
    case GovernanceVote(w, p, c) => [0x0E] + Prefixed(w) + Prefixed(p) + Prefixed(c)
    case GovernanceResult(w, p, r) => [0x0F] + Prefixed(w) + Prefixed(p) + Prefixed(r)
    case AgentRegister(a, k, m, p) => [0x40] + Prefixed(a) + Prefixed(k) + Prefixed(m) + Prefixed(p)
    case AgentPolicy(a, v, r) => [0x41] + Prefixed(a) + FourBytes(v) + Prefixed(r)
    case AgentAction(a, t, i, o) => [0x42] + Prefixed(a) + Prefixed(t) + Prefixed(i) + Prefixed(o)
  }

  predicate Fits(s: ByteString) {
    |s| <= 0xFFFF
  }

  /** Strings of at most 65535 bytes and numbers of the declared widths. */
  predicate IsAdmitted(e: Event) {
    match e
    case ProgramEntry(_) => true
    case OwnershipAttest(w, s) => Fits(w) && Fits(s)
    case ContractAnchor(s, c) => Fits(s) && Fits(c)
    case Deployment(s, f, t) => Fits(s) && Fits(f) && t <= 0xFFFF_FFFF_FFFF_FFFF
    case HostingPayment(s, m, y) => Fits(s) && m <= 0xFFFF_FFFF && y <= 0xFFFF_FFFF
    case ShieldRenewal(w, y) => Fits(w) && y <= 0xFFFF_FFFF
    case Transfer(o, n, s) => Fits(o) && Fits(n) && Fits(s)
    case Exit(w, s, t) => Fits(w) && Fits(s) && t <= 0xFFFF_FFFF_FFFF_FFFF
    case StakingDeposit(w, a, v) => Fits(w) && a <= 0xFFFF_FFFF_FFFF_FFFF && Fits(v)
    case StakingWithdraw(w, a, v) => Fits(w) && a <= 0xFFFF_FFFF_FFFF_FFFF && Fits(v)
    case StakingReward(w, a, ep) => Fits(w) && a <= 0xFFFF_FFFF_FFFF_FFFF && ep <= 0xFFFF_FFFF
    case GovernanceProposal(w, p, h) => Fits(w) && Fits(p) && Fits(h)
    case GovernanceVote(w, p, c) => Fits(w) && Fits(p) && Fits(c)
    case GovernanceResult(w, p, r) => Fits(w) && Fits(p) && Fits(r)
    case AgentRegister(a, k, m, p) => Fits(a) && Fits(k) && Fits(m) && Fits(p)
    case AgentPolicy(a, v, r) => Fits(a) && v <= 0xFFFF_FFFF && Fits(r)
    case AgentAction(a, t, i, o) => Fits(a) && Fits(t) && Fits(i) && Fits(o)
  }

  lemma TwoAfter(e: Event, f: Field, g: Field)
    requires !e.ProgramEntry? && PayloadFields(e) == [f, g]
    ensures EventPreimage(e) == [TypeByte(e)] + FieldBytes(f) + FieldBytes(g)
  {
    var t := TypeByte(e);
    hide PayloadFields, TypeByte, FieldBytes;
    EncodeAllJoins([Tag(t)], [f, g]);
    OneField(Tag(t));
    TwoFields(f, g);
    Assoc([t], f.Encode(), g.Encode());
    FieldIs(f);
    FieldIs(g);
  }

  lemma ThreeAfter(e: Event, f: Field, g: Field, h: Field)
    requires !e.ProgramEntry? && PayloadFields(e) == [f, g, h]
    ensures EventPreimage(e) == [TypeByte(e)] + FieldBytes(f) + FieldBytes(g) + FieldBytes(h)
  {
    var t := TypeByte(e);
    hide PayloadFields, TypeByte, FieldBytes;
    EncodeAllJoins([Tag(t)], [f, g, h]);
    OneField(Tag(t));
    ThreeFields(f, g, h);
    Assoc([t], f.Encode(), g.Encode());
    Assoc([t], f.Encode() + g.Encode(), h.Encode());
    FieldIs(f);
    FieldIs(g);
    FieldIs(h);
  }

  lemma FourAfter(e: Event, f: Field, g: Field, h: Field, i: Field)
    requires !e.ProgramEntry? && PayloadFields(e) == [f, g, h, i]
    ensures EventPreimage(e) == [TypeByte(e)] + FieldBytes(f) + FieldBytes(g) + FieldBytes(h) + FieldBytes(i)
  {
    var t := TypeByte(e);
    hide PayloadFields, TypeByte, FieldBytes;
    EncodeAllJoins([Tag(t)], [f, g, h, i]);
    OneField(Tag(t));
    FourFields(f, g, h, i);
    Assoc([t], f.Encode(), g.Encode());
    Assoc([t], f.Encode() + g.Encode(), h.Encode());
    Assoc([t], f.Encode() + g.Encode() + h.Encode(), i.Encode());
    FieldIs(f);
    FieldIs(g);
    FieldIs(h);
    FieldIs(i);
  }

  /** The fields written one after the other are these bytes. */
  lemma PreimageIsLayout(e: Event)
    ensures EventPreimage(e) == Layout(e)
  {
    hide EncodeAll, TwoBytes, FourBytes, EightBytes, EventPreimage;
    match e
    case ProgramEntry(w) => EntryAfter(e);
    case OwnershipAttest(w, s) => TwoAfter(e, Short(w), Short(s));
    case ContractAnchor(s, c) => TwoAfter(e, Short(s), Short(c));
    case Deployment(s, f, t) => ThreeAfter(e, Short(s), Short(f), U64(t));
    case HostingPayment(s, m, y) => ThreeAfter(e, Short(s), U32(m), U32(y));
    case ShieldRenewal(w, y) => TwoAfter(e, Short(w), U32(y));
    case Transfer(o, n, s) => ThreeAfter(e, Short(o), Short(n), Short(s));
    case Exit(w, s, t) => ThreeAfter(e, Short(w), Short(s), U64(t));
    case StakingDeposit(w, a, v) => ThreeAfter(e, Short(w), U64(a), Short(v));
    case StakingWithdraw(w, a, v) => ThreeAfter(e, Short(w), U64(a), Short(v));
    case StakingReward(w, a, ep) => ThreeAfter(e, Short(w), U64(a), U32(ep));
    case GovernanceProposal(w, p, h) => ThreeAfter(e, Short(w), Short(p), Short(h));
    case GovernanceVote(w, p, c) => ThreeAfter(e, Short(w), Short(p), Short(c));
    case GovernanceResult(w, p, r) => ThreeAfter(e, Short(w), Short(p), Short(r));
    case AgentRegister(a, k, m, p) => FourAfter(e, Short(a), Short(k), Short(m), Short(p));
    case AgentPolicy(a, v, r) => ThreeAfter(e, Short(a), U32(v), Short(r));
    case AgentAction(a, t, i, o) => FourAfter(e, Short(a), Short(t), Short(i), Short(o));
  }

  lemma EntryAfter(e: Event)
    requires e.ProgramEntry?
    ensures EventPreimage(e) == [0x01] + e.wallet
  {
    OneField(Tag(0x01));
    assert [Tag(0x01)] + [] == [Tag(0x01)];
  }

  /** Whether any field is too long, over the list of fields and over the members of the event. */
  lemma HashableIffAdmitted(e: Event)
    ensures Hashable(e) <==> IsAdmitted(e)
  {
    var f := PayloadFields(e);
    assert AllValid(f) <==> forall i :: 0 <= i < |f| ==> f[i].Valid();
    hide AllValid;
    assert |f| == 0 || |f| == 2 || |f| == 3 || |f| == 4;
    assert (forall i :: 0 <= i < |f| ==> f[i].Valid()) <==> (
      (|f| > 0 ==> f[0].Valid()) && (|f| > 1 ==> f[1].Valid()) && (|f| > 2 ==> f[2].Valid()) && (|f| > 3 ==> f[3].Valid()));
  }

  /** The appends to the growing buffer; None when a field is too long to be prefixed. */
  method BuildPreimage(e: Event) returns (r: Option<ByteString>)
    ensures r == if IsAdmitted(e) then Some(Layout(e)) else None
    ensures r == if Hashable(e) then Some(EventPreimage(e)) else None
  {
    PreimageIsLayout(e);
    HashableIffAdmitted(e);
    hide Layout, IsAdmitted, PayloadFields, TypeByte;
    var fields := PayloadFields(e);
    var buf: ByteString := [TypeByte(e)];
    ghost var head := [Tag(TypeByte(e))];
    assert head + fields[..0] == head && buf == EncodeAll(head) + [];
    for i := 0 to |fields|
      invariant buf == EncodeAll(head + fields[..i])
      invariant AllValid(fields[..i])
    {
      assert fields[i] in fields && fields[..i + 1] == fields[..i] + [fields[i]];
      if !fields[i].Valid() {
        return None;
      }
      Assoc(head, fields[..i], [fields[i]]);
      EncodeAllJoins(head + fields[..i], [fields[i]]);
      OneField(fields[i]);
      buf := buf + fields[i].Encode();
    }
    assert fields[..|fields|] == fields;
    r := Some(buf + Unprefixed(e));
  }

  function LeafHash(H: Hash, e: Event): Digest {
    H(LEAF_PERSONAL, EventPreimage(e))
  }

  /** A leaf is hashed from the bytes of its event, under the stem of the personalizations padded with zeros. */
  lemma LeafIsHashed(H: Hash, e: Event, leafText: ByteString)
    requires |leafText| == 16 && IsText(leafText[..13], "NordicShield_") && leafText[13..] == [0, 0, 0]
    ensures LeafHash(H, e) == H(leafText, Layout(e))
  {
    PersonalizationsAre();
    assert leafText == leafText[..13] + leafText[13..] && LEAF_PERSONAL == LEAF_PERSONAL[..13] + LEAF_PERSONAL[13..];
    assert leafText[..13] == LEAF_PERSONAL[..13];
    PreimageIsLayout(e);
  }

  lemma SameTypeSameKinds(d: Event, e: Event)
    requires TypeByte(d) == TypeByte(e)
    ensures d.ProgramEntry? <==> e.ProgramEntry?
    ensures |PayloadFields(d)| == |PayloadFields(e)|
    ensures forall i :: 0 <= i < |PayloadFields(d)| ==> PayloadFields(d)[i].Kind() == PayloadFields(e)[i].Kind()
    ensures PayloadFields(d) == PayloadFields(e) && Unprefixed(d) == Unprefixed(e) ==> d == e
  {
    var f, g := PayloadFields(d), PayloadFields(e);
    if f == g && f != [] {
      assert f[0] == g[0] && f[1] == g[1];
      assert |f| > 2 ==> f[2] == g[2];
      assert |f| > 3 ==> f[3] == g[3];
    }
  }

  /** Different events have different preimages, across all types and all field values. */
  lemma EventPreimageInjective(d: Event, e: Event)
    requires Hashable(d) && Hashable(e)
    requires EventPreimage(d) == EventPreimage(e)
    ensures d == e
  {
    var f, g := [Tag(TypeByte(d))], [Tag(TypeByte(e))];
    if f == g {
      SameTypeSameKinds(d, e);
      AlignedAfter(PayloadFields(d), PayloadFields(e), [], []);
      assert PayloadFields(d) + [] == PayloadFields(d) && PayloadFields(e) + [] == PayloadFields(e);
    }
    AlignedAfter(f, g, PayloadFields(d), PayloadFields(e));
    EncodingInjective(f + PayloadFields(d), g + PayloadFields(e), Unprefixed(d), Unprefixed(e));
    assert (f + PayloadFields(d))[0] == (g + PayloadFields(e))[0];
    assert (f + PayloadFields(d))[1..] == PayloadFields(d) && (g + PayloadFields(e))[1..] == PayloadFields(e);
  }
}
