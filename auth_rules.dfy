/**
 * Input rules, the permission check and the password-policy check that
 * `CAuthentication::validateUpdate` applies before the authentication
 * settings (the single `config` row) may be updated.
 */
module AuthRules {
  import opened Wrappers

  /** The columns of the `config` row that the authentication API exposes, plus
      the row key `configid` and any other key a caller may send. */
  datatype Field =
    | AuthenticationType | HttpAuthEnabled | HttpLoginForm | HttpStripDomains | HttpCaseSensitive
    | LdapConfigured | LdapHost | LdapPort | LdapBaseDn | LdapSearchAttribute | LdapBindDn
    | LdapCaseSensitive | LdapBindPassword
    | SamlAuthEnabled | SamlIdpEntityid | SamlSsoUrl | SamlSloUrl | SamlUsernameAttribute
    | SamlSpEntityid | SamlNameidFormat | SamlSignMessages | SamlSignAssertions
    | SamlSignAuthnRequests | SamlSignLogoutRequests | SamlSignLogoutResponses
    | SamlEncryptNameid | SamlEncryptAssertions | SamlCaseSensitive
    | PasswdMinLength | PasswdCheckRules
    | ConfigId
    | Unknown(name: string)

  /** A PHP scalar as it arrives in the request or comes back from the database. */
  datatype Value = Int(i: int) | Str(s: string)

  /** The API errors `validateUpdate` raises. `InvalidInput` and
      `InsufficientPasswdLength` are both ZBX_API_ERROR_PARAMETERS; the second one
      is reported on `/passwd_check_rules`. `NoPermissions` is ZBX_API_ERROR_PERMISSIONS. */
  datatype ApiError = InvalidInput | NoPermissions | InsufficientPasswdLength

  // Enumeration values of the Zabbix front-end definitions.
  const ZBX_AUTH_INTERNAL := 0
  const ZBX_AUTH_LDAP := 1
  const ZBX_AUTH_HTTP_DISABLED := 0
  const ZBX_AUTH_HTTP_ENABLED := 1
  const ZBX_AUTH_FORM_ZABBIX := 0
  const ZBX_AUTH_FORM_HTTP := 1
  const ZBX_AUTH_CASE_INSENSITIVE := 0
  const ZBX_AUTH_CASE_SENSITIVE := 1
  const ZBX_AUTH_LDAP_DISABLED := 0
  const ZBX_AUTH_LDAP_ENABLED := 1
  const USER_TYPE_SUPER_ADMIN := 3

  /** Bit positions of the PASSWD_CHECK_* flags inside `passwd_check_rules`. */
  datatype PasswdBits = PasswdBits(lengthBit: nat, caseBit: nat, digitsBit: nat, specialBit: nat, simpleBit: nat)

  /** What the database schema supplies: string column lengths, the column
      defaults of the two password settings, and the password flag bits. */
  datatype Schema = Schema(
    fieldLength: Field -> nat,
    passwdMinLengthDefault: int,
    passwdCheckRulesDefault: int,
    bits: PasswdBits)

  /** `1 << k`; only its positivity is stated here, its bits are described by `MaskBelowBits`. */
  function Pow2(k: nat): (r: nat)
    ensures r >= 1
  {
    if k == 0 then 1 else 2 * Pow2(k - 1)
  }

  lemma {:induction false} Pow2Add(a: nat, b: nat)
    ensures Pow2(a + b) == Pow2(a) * Pow2(b)
    decreases b
  {
    if b > 0 {
      Pow2Add(a, b - 1);
      assert Pow2(a + b) == 2 * Pow2(a + b - 1);
    }
  }

  /** Integer division is determined by the interval its dividend lies in. */
  lemma DivUnique(y: int, d: int, q: int)
    requires d > 0 && q * d <= y < q * d + d
    ensures y / d == q
  {
    var q', r' := y / d, y % d;
    assert y == q' * d + r' && 0 <= r' < d;
    var delta := q' - q;
    assert y - q * d == delta * d + r' by {
      assert q' * d == (q + delta) * d == q * d + delta * d;
    }
    if delta >= 1 {
      MulAtLeast(delta, d);
    } else if delta <= -1 {
      MulAtLeast(-delta, d);
    }
  }

  lemma MulAtLeast(a: int, b: int)
    requires a >= 1 && b > 0
    ensures a * b >= b
  {
    assert a * b == (a - 1) * b + b;
  }

  /** Bit `k` of `rules` in two's complement, i.e. `(rules & (1 << k)) == (1 << k)`. */
  predicate HasBit(rules: int, k: nat) {
    (rules / Pow2(k)) % 2 == 1
  }

  /** Bit `k` is clear below `1 << k` and set from `1 << k` up to `1 << (k + 1)`. */
  lemma HasBitBounds(rules: int, k: nat)
    ensures 0 <= rules < Pow2(k) ==> !HasBit(rules, k)
    ensures Pow2(k) <= rules < 2 * Pow2(k) ==> HasBit(rules, k)
  {
    if 0 <= rules < Pow2(k) {
      DivUnique(rules, Pow2(k), 0);
    } else if Pow2(k) <= rules < 2 * Pow2(k) {
      DivUnique(rules, Pow2(k), 1);
    }
  }

  /** The bitwise OR of `1 << k` over the positions `k < n` that are in `positions`;
      `MaskBelowBits` proves that it has exactly those bits. */
  function MaskBelow(positions: set<nat>, n: nat): (r: int)
    ensures r >= 0
  {
    if n == 0 then 0
    else MaskBelow(positions, n - 1) + (if n - 1 in positions then Pow2(n - 1) else 0)
  }

  lemma Pow2Monotone(a: nat, b: nat)
    requires a <= b
    ensures Pow2(a) <= Pow2(b)
  {
    Pow2Add(a, b - a);
    MulAtLeast(Pow2(b - a), Pow2(a));
  }

  /** Adding a multiple of `2 << k` leaves bit `k` as it was. */
  lemma BitUnderAddedMultiple(x: int, e: int, k: nat)
    requires e >= 0
    ensures HasBit(x + 2 * e * Pow2(k), k) <==> HasBit(x, k)
  {
    var d := Pow2(k);
    QuotientShift(x, e, d);
    HasBitIsQuotientParity(x, k);
    HasBitIsQuotientParity(x + 2 * e * d, k);
  }

  /** Adding `2 * e` multiples of the divisor adds `2 * e` to the quotient, so the
      quotient's parity is unchanged. */
  lemma QuotientShift(x: int, e: int, d: int)
    requires d > 0 && e >= 0
    ensures (x + 2 * e * d) / d == x / d + 2 * e
    ensures ((x + 2 * e * d) / d) % 2 == (x / d) % 2
  {
    var q0 := x / d;
    assert x == q0 * d + x % d;
    MulDistributes(q0, 2 * e, d);
    DivUnique(x + 2 * e * d, d, q0 + 2 * e);
  }

  lemma MulDistributes(a: int, b: int, d: int)
    ensures (a + b) * d == a * d + b * d
  {
  }

  lemma HasBitIsQuotientParity(rules: int, k: nat)
    ensures HasBit(rules, k) <==> (rules / Pow2(k)) % 2 == 1
  {
  }

  lemma MulRearrange(c: int, d: int, t: int)
    ensures c * (d * (2 * t)) == 2 * (c * t) * d
  {
  }

  /** Bits below position `m` are not affected by adding `1 << m`. */
  lemma BitBelowTop(x: int, c: int, m: nat, k: nat)
    requires k < m && c >= 0
    ensures HasBit(x + c * Pow2(m), k) <==> HasBit(x, k)
  {
    var t := Pow2(m - k - 1);
    Pow2Add(k, m - k);
    assert Pow2(m - k) == 2 * t;
    MulRearrange(c, Pow2(k), t);
    BitUnderAddedMultiple(x, c * t, k);
  }

  /** The meaning of `MaskBelow`: the mask lies below `1 << n` and has exactly the
      bits of the selected positions below `n`. */
  lemma {:induction false} MaskBelowBits(positions: set<nat>, n: nat, k: nat)
    ensures MaskBelow(positions, n) < Pow2(n)
    ensures HasBit(MaskBelow(positions, n), k) <==> k < n && k in positions
    decreases n
  {
    if n > 0 {
      var m := n - 1;
      var x := MaskBelow(positions, m);
      var c := if m in positions then 1 else 0;
      MaskBelowBits(positions, m, k);
      assert MaskBelow(positions, n) == x + c * Pow2(m);
      if k < m {
        BitBelowTop(x, c, m, k);
      } else if k == m {
        HasBitBounds(x + c * Pow2(m), m);
      } else {
        Pow2Monotone(n, k);
        HasBitBounds(MaskBelow(positions, n), k);
      }
    }
  }

  /** A selected position below `n` contributes its full weight to the mask. */
  lemma {:induction false} MaskBelowAtLeast(positions: set<nat>, n: nat, k: nat)
    requires k in positions && k < n
    ensures Pow2(k) <= MaskBelow(positions, n)
    decreases n
  {
    if k < n - 1 {
      MaskBelowAtLeast(positions, n - 1, k);
    }
  }

  function Max(a: nat, b: nat): nat { if a < b then b else a }

  /** The positions of the five PASSWD_CHECK_* flags. */
  function Flags(b: PasswdBits): set<nat> {
    {b.lengthBit, b.caseBit, b.digitsBit, b.specialBit, b.simpleBit}
  }

  /** PASSWD_CHECK_LENGTH | PASSWD_CHECK_CASE | PASSWD_CHECK_DIGITS | PASSWD_CHECK_SPECIAL | PASSWD_CHECK_SIMPLE */
  function AllRulesMask(b: PasswdBits): int {
    MaskBelow(Flags(b), Max(Max(Max(b.lengthBit, b.caseBit), Max(b.digitsBit, b.specialBit)), b.simpleBit) + 1)
  }

  /** The mask of all rules has exactly the five flag bits set, and PASSWD_CHECK_LENGTH
      alone does not exceed it, so the `passwd_check_rules` range is never empty. */
  lemma AllRulesMaskHasExactlyTheFlags(b: PasswdBits, k: nat)
    ensures HasBit(AllRulesMask(b), k) <==> k in Flags(b)
    ensures Pow2(b.lengthBit) <= AllRulesMask(b)
  {
    var n := Max(Max(Max(b.lengthBit, b.caseBit), Max(b.digitsBit, b.specialBit)), b.simpleBit) + 1;
    MaskBelowBits(Flags(b), n, k);
    MaskBelowAtLeast(Flags(b), n, b.lengthBit);
  }

  /** PASSWD_CHECK_LENGTH alone does not exceed the mask of all rules. */
  lemma LengthFlagWithinAllRules(b: PasswdBits)
    ensures Pow2(b.lengthBit) <= AllRulesMask(b)
  {
    AllRulesMaskHasExactlyTheFlags(b, 0);
  }

  /** The rule an input field must satisfy. */
  datatype FieldRule =
    | IntIn(allowed: set<int>)          // API_INT32 with a value list
    | IntRange(lo: int, hi: int)        // API_INT32 with a range "lo:hi"
    | Utf8(maxLength: nat, notEmpty: bool)  // API_STRING_UTF8, optionally API_NOT_EMPTY

  /** An enumerated rule is a 0/1 choice and a range rule admits some value. */
  predicate OnOffOrNonEmptyRange(rule: FieldRule) {
    match rule
    case IntIn(allowed) => allowed == {0, 1}
    case IntRange(lo, hi) => lo <= hi
    case Utf8(_, _) => true
  }

  /**
   * The input rule of every field `validateUpdate` accepts; `None` for a key it
   * rejects. The string settings are exactly the API_STRING_UTF8 fields, every
   * enumerated setting is a 0/1 choice, and every range admits some value.
   */
  function RuleOf(f: Field, schema: Schema): (r: Option<FieldRule>)
    ensures r.None? <==> f == ConfigId || f.Unknown?
    ensures r.Some? && r.value.Utf8? <==> IsStringField(f)
    ensures r.Some? ==> OnOffOrNonEmptyRange(r.value)
  {
    var onOff := {0, 1};
    var len := schema.fieldLength(f);
    match f
    case AuthenticationType => Some(IntIn({ZBX_AUTH_INTERNAL, ZBX_AUTH_LDAP}))
    case HttpAuthEnabled => Some(IntIn({ZBX_AUTH_HTTP_DISABLED, ZBX_AUTH_HTTP_ENABLED}))
    case HttpLoginForm => Some(IntIn({ZBX_AUTH_FORM_ZABBIX, ZBX_AUTH_FORM_HTTP}))
    case HttpStripDomains => Some(Utf8(len, false))
    case HttpCaseSensitive => Some(IntIn({ZBX_AUTH_CASE_INSENSITIVE, ZBX_AUTH_CASE_SENSITIVE}))
    case LdapConfigured => Some(IntIn({ZBX_AUTH_LDAP_DISABLED, ZBX_AUTH_LDAP_ENABLED}))
    case LdapHost => Some(Utf8(len, true))
    case LdapPort => Some(IntRange(0, 65535))
    case LdapBaseDn => Some(Utf8(len, true))
    case LdapSearchAttribute => Some(Utf8(len, true))
    case LdapBindDn => Some(Utf8(len, false))
    case LdapCaseSensitive => Some(IntIn({ZBX_AUTH_CASE_INSENSITIVE, ZBX_AUTH_CASE_SENSITIVE}))
    case LdapBindPassword => Some(Utf8(len, false))
    case SamlAuthEnabled => Some(IntIn({ZBX_AUTH_HTTP_DISABLED, ZBX_AUTH_HTTP_ENABLED}))
    case SamlIdpEntityid => Some(Utf8(len, true))
    case SamlSsoUrl => Some(Utf8(len, true))
    case SamlSloUrl => Some(Utf8(len, false))
    case SamlUsernameAttribute => Some(Utf8(len, true))
    case SamlSpEntityid => Some(Utf8(len, true))
    case SamlNameidFormat => Some(Utf8(len, false))
    case SamlSignMessages => Some(IntIn(onOff))
    case SamlSignAssertions => Some(IntIn(onOff))
    case SamlSignAuthnRequests => Some(IntIn(onOff))
    case SamlSignLogoutRequests => Some(IntIn(onOff))
    case SamlSignLogoutResponses => Some(IntIn(onOff))
    case SamlEncryptNameid => Some(IntIn(onOff))
    case SamlEncryptAssertions => Some(IntIn(onOff))
    case SamlCaseSensitive => Some(IntIn({ZBX_AUTH_CASE_INSENSITIVE, ZBX_AUTH_CASE_SENSITIVE}))
    case PasswdMinLength => Some(IntRange(1, 255))
    case PasswdCheckRules =>
      LengthFlagWithinAllRules(schema.bits);
      Some(IntRange(Pow2(schema.bits.lengthBit), AllRulesMask(schema.bits)))
    case ConfigId => None
    case Unknown(_) => None
  }

  /** The settings the input rules type as UTF-8 strings. */
  predicate IsStringField(f: Field) {
    match f
    case HttpStripDomains | LdapHost | LdapBaseDn | LdapSearchAttribute | LdapBindDn | LdapBindPassword
       | SamlIdpEntityid | SamlSsoUrl | SamlSloUrl | SamlUsernameAttribute | SamlSpEntityid | SamlNameidFormat => true
    case _ => false
  }

  predicate Satisfies(rule: FieldRule, v: Value) {
    match rule
    case IntIn(allowed) => v.Int? && v.i in allowed
    case IntRange(lo, hi) => v.Int? && lo <= v.i <= hi
    case Utf8(maxLength, notEmpty) => v.Str? && |v.s| <= maxLength && (notEmpty ==> v.s != "")
  }

  /** Key `f` with value `v` passes the input rules. */
  predicate Admissible(f: Field, v: Value, schema: Schema) {
    RuleOf(f, schema).Some? && Satisfies(RuleOf(f, schema).value, v)
  }

  /** The request object is not empty and every key of it is admissible. */
  predicate InputAccepted(auth: map<Field, Value>, schema: Schema) {
    auth != map[] && forall f :: f in auth ==> Admissible(f, auth[f], schema)
  }

  /** The password minimum length the policy check sees: the caller's, else the schema default. */
  function EffectiveMinLength(auth: map<Field, Value>, schema: Schema): int {
    if PasswdMinLength in auth && auth[PasswdMinLength].Int? then auth[PasswdMinLength].i
    else schema.passwdMinLengthDefault
  }

  /** The password rule mask the policy check sees: the caller's, else the schema default. */
  function EffectiveCheckRules(auth: map<Field, Value>, schema: Schema): int {
    if PasswdCheckRules in auth && auth[PasswdCheckRules].Int? then auth[PasswdCheckRules].i
    else schema.passwdCheckRulesDefault
  }

  /**
   * The input validation of `validateUpdate`: the request must be a non-empty
   * object of known, well-formed fields; absent password settings are filled
   * in with the schema defaults.
   */
  function ValidateInput(auth: map<Field, Value>, schema: Schema): (r: Result<map<Field, Value>, ApiError>)
    ensures r.Success? <==> InputAccepted(auth, schema)
    ensures r.Failure? ==> r.error == InvalidInput
    ensures r.Success? ==> r.value.Keys == auth.Keys + {PasswdMinLength, PasswdCheckRules}
    ensures r.Success? ==> forall f :: f in auth ==> r.value[f] == auth[f]
    ensures r.Success? ==> r.value[PasswdMinLength] == Int(EffectiveMinLength(auth, schema))
    ensures r.Success? ==> r.value[PasswdCheckRules] == Int(EffectiveCheckRules(auth, schema))
  {
    if auth == map[] then Failure(InvalidInput)
    else if exists f | f in auth :: !Admissible(f, auth[f], schema) then Failure(InvalidInput)
    else
      assert PasswdMinLength in auth ==> Admissible(PasswdMinLength, auth[PasswdMinLength], schema);
      assert PasswdCheckRules in auth ==> Admissible(PasswdCheckRules, auth[PasswdCheckRules], schema);
      Success(WithPasswordDefaults(auth, schema))
  }

  /** The validated object with the schema defaults of the password settings it leaves out. */
  function WithPasswordDefaults(auth: map<Field, Value>, schema: Schema): (r: map<Field, Value>)
    requires PasswdMinLength in auth ==> auth[PasswdMinLength].Int?
    requires PasswdCheckRules in auth ==> auth[PasswdCheckRules].Int?
    ensures r.Keys == auth.Keys + {PasswdMinLength, PasswdCheckRules}
    ensures forall f :: f in auth ==> r[f] == auth[f]
    ensures r[PasswdMinLength] == Int(EffectiveMinLength(auth, schema))
    ensures r[PasswdCheckRules] == Int(EffectiveCheckRules(auth, schema))
  {
    var withLength :=
      if PasswdMinLength in auth then auth else auth[PasswdMinLength := Int(schema.passwdMinLengthDefault)];
    if PasswdCheckRules in auth then withLength
    else withLength[PasswdCheckRules := Int(schema.passwdCheckRulesDefault)]
  }

  /** The permission check: only a super admin may change authentication settings. */
  predicate MayUpdate(userType: int) {
    userType == USER_TYPE_SUPER_ADMIN
  }

  /** How many of the CASE, DIGITS and SPECIAL character classes `rules` requires. */
  function RequiredClassCount(rules: int, b: PasswdBits): nat {
    (if HasBit(rules, b.caseBit) then 1 else 0)
    + (if HasBit(rules, b.digitsBit) then 1 else 0)
    + (if HasBit(rules, b.specialBit) then 1 else 0)
  }

  /**
   * The satisfiability check of `validateUpdate`: with minimum length 1 any two
   * of CASE/DIGITS/SPECIAL, and with minimum length 2 all three, are rejected.
   * For any length of at least 1 this is exactly "more character classes are
   * required than a shortest password can hold".
   */
  predicate PasswdLengthInsufficient(minLength: int, rules: int, b: PasswdBits)
    ensures 1 <= minLength ==>
      (PasswdLengthInsufficient(minLength, rules, b) <==> RequiredClassCount(rules, b) > minLength)
  {
    var hasCase := HasBit(rules, b.caseBit);
    var hasDigits := HasBit(rules, b.digitsBit);
    var hasSpecial := HasBit(rules, b.specialBit);
    (minLength == 1 && ((hasCase && hasDigits) || (hasCase && hasSpecial) || (hasDigits && hasSpecial)))
    || (minLength == 2 && hasCase && hasDigits && hasSpecial)
  }

  /**
   * `validateUpdate`: input rules first, then the permission check, then the
   * password-policy check on the defaulted input; on success the stored row.
   */
  function ValidateUpdate(auth: map<Field, Value>, userType: int, schema: Schema, db: map<Field, Value>)
    : (r: Result<map<Field, Value>, ApiError>)
    ensures r.Success? <==>
      && InputAccepted(auth, schema)
      && MayUpdate(userType)
      && !PasswdLengthInsufficient(EffectiveMinLength(auth, schema), EffectiveCheckRules(auth, schema), schema.bits)
    ensures !InputAccepted(auth, schema) ==> r == Failure(InvalidInput)
    ensures InputAccepted(auth, schema) && !MayUpdate(userType) ==> r == Failure(NoPermissions)
    ensures r.Failure? && MayUpdate(userType) && InputAccepted(auth, schema) ==> r.error == InsufficientPasswdLength
    ensures r.Success? ==> r.value == db
  {
    match ValidateInput(auth, schema)
    case Failure(e) => Failure(e)
    case Success(validated) =>
      if !MayUpdate(userType) then Failure(NoPermissions)
      else if PasswdLengthInsufficient(validated[PasswdMinLength].i, validated[PasswdCheckRules].i, schema.bits)
      then Failure(InsufficientPasswdLength)
      else Success(db)
  }

  // ---------------------------------------------------------------------------
  // Properties of the password-policy check

  /** At minimum length 1, any two of CASE, DIGITS, SPECIAL are rejected; one alone is not. */
  lemma LengthOneRejectsTwoClasses(rules: int, b: PasswdBits)
    ensures PasswdLengthInsufficient(1, rules, b) <==> RequiredClassCount(rules, b) >= 2
  {
  }

  /** At minimum length 2, all three classes are rejected; at most two are accepted. */
  lemma LengthTwoRejectsOnlyAllThree(rules: int, b: PasswdBits)
    ensures PasswdLengthInsufficient(2, rules, b) <==>
      HasBit(rules, b.caseBit) && HasBit(rules, b.digitsBit) && HasBit(rules, b.specialBit)
  {
  }

  /** From minimum length 3 on, no combination of flags is rejected. */
  lemma LongPasswordsNeverRejected(minLength: int, rules: int, b: PasswdBits)
    requires minLength >= 3
    ensures !PasswdLengthInsufficient(minLength, rules, b)
  {
  }

  // ---------------------------------------------------------------------------
  // Rejection before any write

  /** A `passwd_min_length` outside 1..255 is rejected as invalid input, whoever calls. */
  lemma MinLengthOutOfRangeRejected(auth: map<Field, Value>, userType: int, schema: Schema, db: map<Field, Value>)
    requires PasswdMinLength in auth && auth[PasswdMinLength].Int?
    requires auth[PasswdMinLength].i < 1 || auth[PasswdMinLength].i > 255
    ensures ValidateUpdate(auth, userType, schema, db) == Failure(InvalidInput)
  {
    assert !Admissible(PasswdMinLength, auth[PasswdMinLength], schema);
  }

  /** An `ldap_port` outside 0..65535 is rejected as invalid input. */
  lemma LdapPortOutOfRangeRejected(auth: map<Field, Value>, userType: int, schema: Schema, db: map<Field, Value>)
    requires LdapPort in auth && auth[LdapPort].Int?
    requires auth[LdapPort].i < 0 || auth[LdapPort].i > 65535
    ensures ValidateUpdate(auth, userType, schema, db) == Failure(InvalidInput)
  {
    assert !Admissible(LdapPort, auth[LdapPort], schema);
  }

  /** An `authentication_type` other than internal or LDAP is rejected as invalid input. */
  lemma AuthenticationTypeOutsideEnumRejected(auth: map<Field, Value>, userType: int, schema: Schema, db: map<Field, Value>)
    requires AuthenticationType in auth && auth[AuthenticationType].Int?
    requires auth[AuthenticationType].i !in {ZBX_AUTH_INTERNAL, ZBX_AUTH_LDAP}
    ensures ValidateUpdate(auth, userType, schema, db) == Failure(InvalidInput)
  {
    assert !Admissible(AuthenticationType, auth[AuthenticationType], schema);
  }

  /** A key that names no authentication field (including `configid`) is rejected. */
  lemma UnknownKeyRejected(auth: map<Field, Value>, k: Field, userType: int, schema: Schema, db: map<Field, Value>)
    requires k in auth && (k.Unknown? || k == ConfigId)
    ensures ValidateUpdate(auth, userType, schema, db) == Failure(InvalidInput)
  {
    assert !Admissible(k, auth[k], schema);
  }

  /** A super admin's accepted request whose effective policy is length 1 with CASE and
      DIGITS is rejected on `/passwd_check_rules`. */
  lemma LengthOneCaseDigitsRejected(auth: map<Field, Value>, schema: Schema, db: map<Field, Value>)
    requires InputAccepted(auth, schema)
    requires EffectiveMinLength(auth, schema) == 1
    requires HasBit(EffectiveCheckRules(auth, schema), schema.bits.caseBit)
    requires HasBit(EffectiveCheckRules(auth, schema), schema.bits.digitsBit)
    ensures ValidateUpdate(auth, USER_TYPE_SUPER_ADMIN, schema, db) == Failure(InsufficientPasswdLength)
  {
  }

  /** A super admin's accepted request with minimum length 255 is never rejected by the policy check. */
  lemma LengthMaxAccepted(auth: map<Field, Value>, schema: Schema, db: map<Field, Value>)
    requires InputAccepted(auth, schema)
    requires EffectiveMinLength(auth, schema) == 255
    ensures ValidateUpdate(auth, USER_TYPE_SUPER_ADMIN, schema, db) == Success(db)
  {
  }
}
