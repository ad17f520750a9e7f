/** Mode negotiation (common/types.go, negotiateMode of client/client.go,
    handleClientSetup of server/server.go; section 3.1 of RFC 4656, RFC 5618,
    RFC 6038). */
module Modes {
  import opened Bytes

  type Mode = bv32

  const UNAUTHENTICATED: Mode := 1
  const AUTHENTICATED: Mode := 2
  const ENCRYPTED: Mode := 4
  const MIXED: Mode := 8
  const REFLECT_OCTETS: Mode := 32
  const SYMMETRICAL_SIZE: Mode := 64
  const BIT14: Mode := 0x4000
  const SECURITY: Mode := 7

  function SecurityOf(mode: Mode): Mode {
    mode & SECURITY
  }

  /** Every bit but the security bits, and but the mixed bit as well. */
  function OthersOf(mode: Mode): Mode {
    mode & !SECURITY
  }

  function UnmixedOthers(mode: Mode): Mode {
    mode & !(SECURITY | MIXED)
  }

  function Common(a: Mode, b: Mode): Mode {
    a & b
  }

  function Join(base: Mode, others: Mode): Mode {
    base | others
  }

  datatype Resolved = Resolved(control: Mode, test: Mode)

  /** ValidateRequestedMode. */
  function ValidateRequestedMode(mode: Mode): Check {
    if Has(mode, BIT14) then Fail(InvalidModeCombo)
    else
      var bits := SecurityOf(mode);
      if bits == 0 || bits & (bits - 1) != 0 then Fail(InvalidModeCombo) else Pass
  }

  /** ValidateModeMask: what a client may be configured with. */
  function ValidateModeMask(mode: Mode): Check {
    if Has(mode, BIT14) || SecurityOf(mode) == 0 then Fail(InvalidModeCombo) else Pass
  }

  /** ResolveMixedModes. */
  function ResolveMixedModes(mode: Mode): Result<Resolved> {
    var base := SecurityOf(mode);
    :- ValidateRequestedMode(mode);
    if Has(mode, MIXED) then
      if base == UNAUTHENTICATED then Err(Rfc5618Violation)
      else Ok(Resolved(Join(base, UnmixedOthers(mode)), Join(UNAUTHENTICATED, UnmixedOthers(mode))))
    else
      Ok(Resolved(mode, mode))
  }

  predicate Has(mode: Mode, bit: Mode) {
    mode & bit != 0
  }

  /** The modes field of the greeting. */
  function Offered(supported: Mode): Mode {
    supported & !BIT14
  }

  /** The security bit negotiateMode settles on: the strongest both sides have. */
  function StrongestCommon(preferred: Mode, offered: Mode): Result<Mode> {
    if Has(preferred, ENCRYPTED) && Has(offered, ENCRYPTED) then Ok(ENCRYPTED)
    else if Has(preferred, AUTHENTICATED) && Has(offered, AUTHENTICATED) then Ok(AUTHENTICATED)
    else if Has(preferred, UNAUTHENTICATED) && Has(offered, UNAUTHENTICATED) then Ok(UNAUTHENTICATED)
    else Err(NoCompatibleMode)
  }

  /** The mode the client puts into its Setup-Response. */
  function SelectMode(preferred: Mode, offered: Mode): Result<Mode> {
    var others := Common(OthersOf(preferred), offered);
    :- ValidateModeMask(preferred);
    var base :- StrongestCommon(SecurityOf(preferred), SecurityOf(offered));
    Ok(Join(base, others))
  }

  /** What the server makes of a requested mode. */
  function AcceptMode(requested: Mode, supported: Mode): Result<Resolved> {
    if requested == 0 then Err(ClientTerminatedConnection) else
    :- ValidateRequestedMode(requested);
    :- Need(Common(requested, supported) != 0, UnsupportedMode);
    var r := ResolveMixedModes(requested);
    if r.Ok? then r else Err(InvalidModeCombo)
  }

  /** A mode names exactly one of the three kinds of security. */
  predicate OneSecurityBit(mode: Mode) {
    SecurityOf(mode) == UNAUTHENTICATED || SecurityOf(mode) == AUTHENTICATED || SecurityOf(mode) == ENCRYPTED
  }

  predicate Within(mode: Mode, mask: Mode) {
    mode & !mask == 0
  }

  // ---- Facts about bits ----

  lemma JoinedBits(base: Mode, others: Mode)
    requires base & !SECURITY == 0 && others & SECURITY == 0
    ensures SecurityOf(Join(base, others)) == base && OthersOf(Join(base, others)) == others
  {
  }

  lemma JoinedMixed(base: Mode, mode: Mode)
    requires base == UNAUTHENTICATED || base == SecurityOf(mode)
    ensures SecurityOf(Join(base, UnmixedOthers(mode))) == base
    ensures OthersOf(Join(base, UnmixedOthers(mode))) == UnmixedOthers(mode)
  {
    assert UnmixedOthers(mode) & SECURITY == 0;
    JoinedBits(base, UnmixedOthers(mode));
  }

  lemma OneBitWithin(bit: Mode, mask: Mode)
    requires bit == UNAUTHENTICATED || bit == AUTHENTICATED || bit == ENCRYPTED
    requires Has(mask, bit)
    ensures Within(bit, mask)
  {
    if bit == UNAUTHENTICATED {
    } else if bit == AUTHENTICATED {
    } else {
    }
  }

  lemma JoinWithin(a: Mode, b: Mode, mask: Mode)
    requires Within(a, mask) && Within(b, mask)
    ensures Within(Join(a, b), mask)
  {
    assert (a | b) & !mask == (a & !mask) | (b & !mask);
  }

  lemma JoinedWithin(base: Mode, others: Mode, mask: Mode)
    requires base == UNAUTHENTICATED || base == AUTHENTICATED || base == ENCRYPTED
    requires Has(mask, base) && Within(others, mask)
    ensures Within(Join(base, others), mask)
  {
    hide Has, Within, Join;
    OneBitWithin(base, mask);
    JoinWithin(base, others, mask);
  }

  lemma OthersWithin(preferred: Mode, offered: Mode)
    ensures var others := Common(OthersOf(preferred), offered);
            Within(others, preferred) && Within(others, offered) && others & SECURITY == 0
  {
  }

  lemma OfferedWithin(m: Mode, supported: Mode)
    requires Within(m, Offered(supported))
    ensures Within(m, supported) && !Has(m, BIT14)
  {
  }

  lemma BitFacts(p: Mode, s: Mode, bit: Mode)
    requires bit == UNAUTHENTICATED || bit == AUTHENTICATED || bit == ENCRYPTED
    ensures Has(SecurityOf(p), bit) <==> Has(p, bit)
    ensures Has(Offered(s), bit) <==> Has(s, bit)
    ensures Has(Common(p, s), bit) <==> Has(p, bit) && Has(s, bit)
  {
  }

  lemma SomeBit(m: Mode)
    ensures SecurityOf(m) != 0 <==> Has(m, UNAUTHENTICATED) || Has(m, AUTHENTICATED) || Has(m, ENCRYPTED)
  {
  }

  lemma Shared(m: Mode, supported: Mode)
    requires OneSecurityBit(m) && Within(m, supported)
    ensures m != 0 && Common(m, supported) != 0
  {
  }

  predicate SingleBit(bit: Mode) {
    bit != 0 && bit & (bit - 1) == 0
  }

  lemma AllOrNothing(m: Mode, bit: Mode)
    requires SingleBit(bit)
    ensures m & bit == 0 || m & bit == bit
  {
  }

  lemma SharedBit(a: Mode, b: Mode, bit: Mode)
    requires SingleBit(bit)
    ensures Has(Common(a, b), bit) <==> Has(a, bit) && Has(b, bit)
  {
    AllOrNothing(a, bit);
    AllOrNothing(b, bit);
    hide SingleBit;
    assert (a & b) & bit == (a & bit) & (b & bit);
  }

  predicate Outside(bit: Mode, mask: Mode) {
    bit & mask == 0
  }

  lemma OutsideMask(m: Mode, bit: Mode, mask: Mode)
    requires Outside(bit, mask)
    ensures Has(m & !mask, bit) <==> Has(m, bit)
  {
    assert m & bit == (m & !mask) & bit;
  }

  lemma OthersBit(m: Mode, bit: Mode)
    requires bit & SECURITY == 0
    ensures Has(OthersOf(m), bit) <==> Has(m, bit)
  {
    OutsideMask(m, bit, SECURITY);
  }

  lemma TwoBits(a: Mode, b: Mode)
    requires SingleBit(a) && SingleBit(b) && a != b
    ensures a & b == 0
  {
    AllOrNothing(a, b);
    AllOrNothing(b, a);
    hide SingleBit;
    assert a & b == b & a;
  }

  lemma BesidesBit14(supported: Mode, bit: Mode)
    requires bit & BIT14 == 0
    ensures Has(Offered(supported), bit) <==> Has(supported, bit)
  {
    hide Has;
    OutsideMask(supported, bit, BIT14);
  }

  lemma NeverBit14(supported: Mode)
    ensures !Has(Offered(supported), BIT14)
  {
  }

  lemma OfferedBit(supported: Mode, bit: Mode)
    requires SingleBit(bit)
    ensures Has(Offered(supported), bit) <==> Has(supported, bit) && bit != BIT14
  {
    assert SingleBit(BIT14);
    hide SingleBit, Has, Offered;
    if bit == BIT14 {
      NeverBit14(supported);
    } else {
      TwoBits(bit, BIT14);
      BesidesBit14(supported, bit);
    }
  }

  // ---- What validation, resolution and selection mean ----

  /** Validation passes exactly the modes with one security bit and without bit 14. */
  lemma ValidationMeaning(mode: Mode)
    ensures ValidateRequestedMode(mode).Pass? <==> OneSecurityBit(mode) && !Has(mode, BIT14)
  {
    var bits := mode & SECURITY;
    assert bits <= 7;
    assert bits & (bits - 1) == 0 <==> bits == 0 || bits == 1 || bits == 2 || bits == 4;
  }

  /** A mode resolves exactly when it is valid and not mixed with unauthenticated, and
      without the mixed bit to itself on both protocols. */
  lemma ResolvesExactly(mode: Mode)
    ensures ResolveMixedModes(mode).Ok? <==>
              OneSecurityBit(mode) && !Has(mode, BIT14) && !(Has(mode, MIXED) && SecurityOf(mode) == UNAUTHENTICATED)
    ensures !Has(mode, MIXED) && ResolveMixedModes(mode).Ok? ==> ResolveMixedModes(mode).value == Resolved(mode, mode)
  {
    hide Has, SecurityOf, Join, UnmixedOthers, ValidateRequestedMode;
    ValidationMeaning(mode);
  }

  /** Mixed mode: the control protocol keeps its security, the test protocol is
      unauthenticated, and both keep every other bit but the mixed one. */
  lemma MixedResolution(mode: Mode, r: Resolved)
    requires Has(mode, MIXED) && ResolveMixedModes(mode) == Ok(r)
    ensures SecurityOf(r.test) == UNAUTHENTICATED
    ensures SecurityOf(r.control) == SecurityOf(mode) != UNAUTHENTICATED
    ensures OthersOf(r.control) == OthersOf(r.test) == UnmixedOthers(mode)
  {
    hide ValidateRequestedMode, Has, SecurityOf, OthersOf, UnmixedOthers, Join;
    JoinedMixed(SecurityOf(mode), mode);
    JoinedMixed(UNAUTHENTICATED, mode);
  }

  lemma MaskUnion(bit: Mode, a: Mode, b: Mode)
    requires bit & a == 0 && bit & b == 0
    ensures Outside(bit, a | b)
  {
  }

  lemma NotMixed(bit: Mode)
    requires SingleBit(bit) && bit != MIXED
    ensures bit & MIXED == 0
  {
    assert SingleBit(MIXED);
    hide SingleBit;
    TwoBits(bit, MIXED);
  }

  lemma UnmixedBit(mode: Mode, bit: Mode)
    requires SingleBit(bit) && bit & SECURITY == 0 && bit != MIXED
    ensures Has(UnmixedOthers(mode), bit) <==> Has(mode, bit)
  {
    hide SingleBit, Has, Outside;
    NotMixed(bit);
    MaskUnion(bit, SECURITY, MIXED);
    OutsideMask(mode, bit, SECURITY | MIXED);
  }

  /** Resolution keeps every feature for both protocols, whether the mode is mixed or not. */
  lemma ResolvedFeatures(mode: Mode, r: Resolved, bit: Mode)
    requires ResolveMixedModes(mode) == Ok(r) && SingleBit(bit) && bit & SECURITY == 0 && bit != MIXED
    ensures Has(r.control, bit) <==> Has(mode, bit)
    ensures Has(r.test, bit) <==> Has(mode, bit)
  {
    hide SingleBit, Has, OthersOf, UnmixedOthers, SecurityOf, ResolveMixedModes;
    if Has(mode, MIXED) {
      MixedResolution(mode, r);
      OthersBit(r.control, bit);
      OthersBit(r.test, bit);
      UnmixedBit(mode, bit);
    } else {
      ResolvesExactly(mode);
    }
  }

  lemma SecurityBits(mode: Mode)
    requires OneSecurityBit(mode)
    ensures Has(mode, ENCRYPTED) <==> SecurityOf(mode) == ENCRYPTED
    ensures Has(mode, AUTHENTICATED) <==> SecurityOf(mode) == AUTHENTICATED
  {
  }

  /** The strongest bit that two masks share. */
  predicate Strongest(base: Mode, a: Mode, b: Mode) {
    && Has(Common(a, b), base)
    && (base == UNAUTHENTICATED ==> !Has(Common(a, b), AUTHENTICATED) && !Has(Common(a, b), ENCRYPTED))
    && (base == AUTHENTICATED ==> !Has(Common(a, b), ENCRYPTED))
  }

  lemma SharedBits(preferred: Mode, supported: Mode, bit: Mode)
    requires bit == UNAUTHENTICATED || bit == AUTHENTICATED || bit == ENCRYPTED
    ensures Has(SecurityOf(preferred), bit) <==> Has(preferred, bit)
    ensures Has(SecurityOf(Offered(supported)), bit) <==> Has(supported, bit)
    ensures Has(Offered(supported), bit) <==> Has(supported, bit)
    ensures Has(Common(preferred, supported), bit) <==> Has(preferred, bit) && Has(supported, bit)
  {
    hide Has, Offered, SecurityOf, Common;
    BitFacts(preferred, supported, bit);
    BitFacts(Offered(supported), supported, bit);
  }

  lemma StrongestFound(preferred: Mode, supported: Mode)
    ensures var r := StrongestCommon(SecurityOf(preferred), SecurityOf(Offered(supported)));
            && (r.Ok? <==> SecurityOf(Common(preferred, supported)) != 0)
            && (r.Ok? ==> (r.value == UNAUTHENTICATED || r.value == AUTHENTICATED || r.value == ENCRYPTED)
                          && Strongest(r.value, preferred, supported)
                          && Has(preferred, r.value) && Has(Offered(supported), r.value))
  {
    hide Has, Offered, SecurityOf, Common;
    SharedBits(preferred, supported, UNAUTHENTICATED);
    SharedBits(preferred, supported, AUTHENTICATED);
    SharedBits(preferred, supported, ENCRYPTED);
    SomeBit(Common(preferred, supported));
  }

  /** Over all masks: the client finds a mode exactly when its own mask is valid and the
      two share a security bit; the mode carries the strongest common one and no other,
      and lies within both masks. */
  lemma SelectionExact(preferred: Mode, supported: Mode)
    ensures var selected := SelectMode(preferred, Offered(supported));
            && (selected.Ok? <==> !Has(preferred, BIT14) && SecurityOf(Common(preferred, supported)) != 0)
            && (selected.Ok? ==>
                  var m := selected.value;
                  && OneSecurityBit(m) && Strongest(SecurityOf(m), preferred, supported)
                  && Within(m, preferred) && Within(m, supported) && !Has(m, BIT14))
  {
    hide StrongestCommon, Strongest, Has, Within, Offered, SecurityOf, OthersOf, Common, Join;
    var offered := Offered(supported);
    StrongestFound(preferred, supported);
    CommonSecurity(preferred, supported);
    var r := StrongestCommon(SecurityOf(preferred), SecurityOf(offered));
    if r.Ok? {
      SelectedBits(r.value, preferred, offered);
      OfferedWithin(Join(r.value, Common(OthersOf(preferred), offered)), supported);
    }
  }

  lemma CommonSecurity(preferred: Mode, supported: Mode)
    ensures SecurityOf(Common(preferred, supported)) != 0 ==> SecurityOf(preferred) != 0
  {
  }

  lemma SelectedBits(base: Mode, preferred: Mode, offered: Mode)
    requires base == UNAUTHENTICATED || base == AUTHENTICATED || base == ENCRYPTED
    requires Has(preferred, base) && Has(offered, base)
    ensures var m := Join(base, Common(OthersOf(preferred), offered));
            SecurityOf(m) == base && Within(m, preferred) && Within(m, offered)
  {
    hide Has, Within, OthersOf, Common, Join, SecurityOf;
    var others := Common(OthersOf(preferred), offered);
    OthersWithin(preferred, offered);
    JoinedBits(base, others);
    JoinedWithin(base, others, preferred);
    JoinedWithin(base, others, offered);
  }

  /** Of every feature, that is of every other bit, the selected mode has exactly what
      both sides have: mixed mode, reflect-octets and symmetrical size among them. */
  lemma FeaturesKept(preferred: Mode, supported: Mode, bit: Mode)
    requires SelectMode(preferred, Offered(supported)).Ok? && SingleBit(bit) && bit & SECURITY == 0
    ensures Has(SelectMode(preferred, Offered(supported)).value, bit)
            <==> Has(preferred, bit) && Has(supported, bit) && bit != BIT14
  {
    hide SingleBit, Has, Common, Offered, OthersOf, Join, SecurityOf, Within, StrongestCommon, ValidateModeMask;
    var offered := Offered(supported);
    var base := StrongestCommon(SecurityOf(preferred), SecurityOf(offered)).value;
    var others := Common(OthersOf(preferred), offered);
    StrongestBit(SecurityOf(preferred), SecurityOf(offered));
    OthersWithin(preferred, offered);
    JoinedBits(base, others);
    OthersBit(Join(base, others), bit);
    OthersBit(preferred, bit);
    SharedBit(OthersOf(preferred), offered, bit);
    OfferedBit(supported, bit);
  }

  lemma StrongestBit(preferred: Mode, offered: Mode)
    ensures var r := StrongestCommon(preferred, offered); r.Ok? ==> r.value & !SECURITY == 0
  {
  }

  /** Both sides resolve the selected mode alike: the server accepts it with the
      client's own resolution, or both refuse it, exactly for mixed with
      unauthenticated. */
  lemma NegotiationAgrees(preferred: Mode, supported: Mode, m: Mode)
    requires SelectMode(preferred, Offered(supported)) == Ok(m)
    ensures AcceptMode(m, supported).Ok? <==> ResolveMixedModes(m).Ok?
    ensures ResolveMixedModes(m).Ok? ==> AcceptMode(m, supported) == ResolveMixedModes(m)
    ensures ResolveMixedModes(m).Err? <==> Has(m, MIXED) && SecurityOf(m) == UNAUTHENTICATED
  {
    hide SelectMode, Strongest, ValidateRequestedMode, Has, Within, Common, SecurityOf, ResolveMixedModes, Offered;
    SelectionExact(preferred, supported);
    ValidationMeaning(m);
    ResolvesExactly(m);
    Shared(m, supported);
  }

  /** The server's own check: a mode is accepted exactly when it resolves and shares any
      one bit with what the server supports. */
  lemma AcceptanceExact(requested: Mode, supported: Mode)
    ensures AcceptMode(requested, supported).Ok? <==>
              Common(requested, supported) != 0 && ResolveMixedModes(requested).Ok?
  {
    ZeroSharesNothing(requested, supported);
    hide ValidateRequestedMode, Common, Has;
    ValidationMeaning(requested);
    ResolvesExactly(requested);
  }

  lemma ZeroSharesNothing(requested: Mode, supported: Mode)
    ensures requested == 0 ==> Common(requested, supported) == 0
  {
  }
}
