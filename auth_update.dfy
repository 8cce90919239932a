/**
 * `CAuthentication::update`: which fields of the authentication settings are
 * written, the conditional write of the `config` row, the audit entry and the
 * value the call returns.
 */
module AuthUpdate {
  import opened Wrappers
  import opened AuthRules

  /** The fields `update` compares with strict `!==` ("strings"), as written. */
  const StringFields: seq<Field> :=
    [HttpStripDomains, LdapHost, LdapBaseDn, LdapSearchAttribute, LdapBindDn, LdapBindPassword]

  /** The fields `update` compares with loose `!=` ("integers"), as written. */
  const IntegerFields: seq<Field> :=
    [AuthenticationType, HttpAuthEnabled, HttpLoginForm, HttpCaseSensitive, LdapConfigured, LdapPort,
     LdapCaseSensitive, SamlAuthEnabled, SamlIdpEntityid, SamlSsoUrl, SamlSloUrl, SamlUsernameAttribute,
     SamlSpEntityid, SamlNameidFormat, SamlSignMessages, SamlSignAssertions, SamlSignAuthnRequests,
     SamlSignLogoutRequests, SamlSignLogoutResponses, SamlEncryptNameid, SamlEncryptAssertions,
     SamlCaseSensitive]

  /** The strictly compared group with the SAML string settings moved into it. */
  const CorrectedStringFields: seq<Field> :=
    [HttpStripDomains, LdapHost, LdapBaseDn, LdapSearchAttribute, LdapBindDn, LdapBindPassword,
     SamlIdpEntityid, SamlSsoUrl, SamlSloUrl, SamlUsernameAttribute, SamlSpEntityid, SamlNameidFormat]

  /** The loosely compared group holding only the integer settings. */
  const CorrectedIntegerFields: seq<Field> :=
    [AuthenticationType, HttpAuthEnabled, HttpLoginForm, HttpCaseSensitive, LdapConfigured, LdapPort,
     LdapCaseSensitive, SamlAuthEnabled, SamlSignMessages, SamlSignAssertions, SamlSignAuthnRequests,
     SamlSignLogoutRequests, SamlSignLogoutResponses, SamlEncryptNameid, SamlEncryptAssertions,
     SamlCaseSensitive]

  /** A column of the `config` row (every field but a key the caller invented). */
  predicate IsColumn(f: Field) {
    !f.Unknown?
  }

  /** A column `update` may write: not the row key and not a password setting. */
  predicate WritableColumn(f: Field) {
    IsColumn(f) && f != ConfigId && f != PasswdMinLength && f != PasswdCheckRules
  }

  /** Both groups as written hold writable columns only; the strict one holds string settings only. */
  lemma GroupsAsWritten()
    ensures forall f :: f in StringFields ==> WritableColumn(f) && IsStringField(f)
    ensures forall f :: f in IntegerFields ==> WritableColumn(f)
  {
    var s, t := StringFields, IntegerFields;
    assert forall i :: 0 <= i < |s| ==> WritableColumn(s[i]) && IsStringField(s[i]);
    assert forall i :: 0 <= i < |t| ==> WritableColumn(t[i]);
  }

  /** The corrected groups split the writable columns by their type. */
  lemma GroupsCorrected()
    ensures forall f :: f in CorrectedStringFields <==> IsStringField(f)
    ensures forall f :: f in CorrectedIntegerFields <==> WritableColumn(f) && !IsStringField(f)
  {
    CorrectedStringGroupTyped();
    CorrectedIntegerGroupTyped();
    forall f | IsStringField(f)
      ensures f in CorrectedStringFields
    {
      StringFieldInCorrectedGroup(f);
    }
    forall f | WritableColumn(f) && !IsStringField(f)
      ensures f in CorrectedIntegerFields
    {
      IntegerFieldInCorrectedGroup(f);
    }
  }

  lemma CorrectedStringGroupTyped()
    ensures forall f :: f in CorrectedStringFields ==> IsStringField(f)
  {
    var s := CorrectedStringFields;
    assert forall i :: 0 <= i < |s| ==> IsStringField(s[i]);
  }

  lemma CorrectedIntegerGroupTyped()
    ensures forall f :: f in CorrectedIntegerFields ==> WritableColumn(f) && !IsStringField(f)
  {
    var t := CorrectedIntegerFields;
    assert forall i :: 0 <= i < |t| ==> WritableColumn(t[i]) && !IsStringField(t[i]);
  }

  lemma StringFieldInCorrectedGroup(f: Field)
    requires IsStringField(f)
    ensures f in CorrectedStringFields
  {
    var s := CorrectedStringFields;
    match f
    case HttpStripDomains => assert s[0] == f;
    case LdapHost => assert s[1] == f;
    case LdapBaseDn => assert s[2] == f;
    case LdapSearchAttribute => assert s[3] == f;
    case LdapBindDn => assert s[4] == f;
    case LdapBindPassword => assert s[5] == f;
    case SamlIdpEntityid => assert s[6] == f;
    case SamlSsoUrl => assert s[7] == f;
    case SamlSloUrl => assert s[8] == f;
    case SamlUsernameAttribute => assert s[9] == f;
    case SamlSpEntityid => assert s[10] == f;
    case SamlNameidFormat => assert s[11] == f;
  }

  lemma IntegerFieldInCorrectedGroup(f: Field)
    requires WritableColumn(f) && !IsStringField(f)
    ensures f in CorrectedIntegerFields
  {
    var t := CorrectedIntegerFields;
    match f
    case AuthenticationType => assert t[0] == f;
    case HttpAuthEnabled => assert t[1] == f;
    case HttpLoginForm => assert t[2] == f;
    case HttpCaseSensitive => assert t[3] == f;
    case LdapConfigured => assert t[4] == f;
    case LdapPort => assert t[5] == f;
    case LdapCaseSensitive => assert t[6] == f;
    case SamlAuthEnabled => assert t[7] == f;
    case SamlSignMessages => assert t[8] == f;
    case SamlSignAssertions => assert t[9] == f;
    case SamlSignAuthnRequests => assert t[10] == f;
    case SamlSignLogoutRequests => assert t[11] == f;
    case SamlSignLogoutResponses => assert t[12] == f;
    case SamlEncryptNameid => assert t[13] == f;
    case SamlEncryptAssertions => assert t[14] == f;
    case SamlCaseSensitive => assert t[15] == f;
  }

  /** `looseEq` behaves like PHP's `==` at least in being reflexive. */
  ghost predicate Reflexive(looseEq: (Value, Value) -> bool) {
    forall v :: looseEq(v, v)
  }

  /** Field `f` of the request is to be written: it differs from the stored value,
      strictly if it is in `stringFields`, loosely if it is in `integerFields`. */
  predicate Differs(f: Field, auth: map<Field, Value>, db: map<Field, Value>,
                    stringFields: seq<Field>, integerFields: seq<Field>, looseEq: (Value, Value) -> bool)
    requires f in auth && f in db
  {
    (f in stringFields && auth[f] != db[f]) || (f in integerFields && !looseEq(auth[f], db[f]))
  }

  /** The `$upd_config` array `update` builds: every differing supplied field with its new
      value. Only supplied fields of the two groups are ever written, with the supplied value. */
  function Changes(auth: map<Field, Value>, db: map<Field, Value>,
                   stringFields: seq<Field>, integerFields: seq<Field>, looseEq: (Value, Value) -> bool)
    : (r: map<Field, Value>)
    ensures forall f :: f in r ==> f in auth && r[f] == auth[f] && (f in stringFields || f in integerFields)
  {
    map f | f in auth && f in db && (f in stringFields || f in integerFields)
                      && Differs(f, auth, db, stringFields, integerFields, looseEq) :: auth[f]
  }

  /**
   * The two `foreach` loops of `update`: strings first, then integers. A field
   * is collected iff it is in one of the groups, supplied, and unequal to the
   * stored value under that group's comparison; it carries the supplied value.
   */
  method CollectChanges(auth: map<Field, Value>, db: map<Field, Value>,
                        stringFields: seq<Field>, integerFields: seq<Field>, looseEq: (Value, Value) -> bool)
    returns (upd: map<Field, Value>)
    requires forall f :: f in stringFields ==> f in db
    requires forall f :: f in integerFields ==> f in db
    ensures forall f :: f in upd <==>
      f in auth && ((f in stringFields && auth[f] != db[f]) || (f in integerFields && !looseEq(auth[f], db[f])))
    ensures forall f :: f in upd ==> upd[f] == auth[f]
    ensures upd == Changes(auth, db, stringFields, integerFields, looseEq)
  {
    upd := map[];
    for i := 0 to |stringFields|
      invariant forall f :: f in upd <==> f in auth && f in stringFields[..i] && auth[f] != db[f]
      invariant forall f :: f in upd ==> upd[f] == auth[f]
    {
      var name := stringFields[i];
      if name in auth && auth[name] != db[name] {
        upd := upd[name := auth[name]];
      }
    }
    assert stringFields[..|stringFields|] == stringFields;
    for j := 0 to |integerFields|
      invariant forall f :: f in upd <==>
        f in auth && ((f in stringFields && auth[f] != db[f]) || (f in integerFields[..j] && !looseEq(auth[f], db[f])))
      invariant forall f :: f in upd ==> upd[f] == auth[f]
    {
      var name := integerFields[j];
      if name in auth && !looseEq(auth[name], db[name]) {
        upd := upd[name := auth[name]];
      }
    }
    assert integerFields[..|integerFields|] == integerFields;
  }

  /** The audit record of an update of the authentication resource: the request
      with the row key added, and the row as it was before. */
  datatype AuditEntry = AuditEntry(newObject: map<Field, Value>, oldObject: map<Field, Value>)

  /** The authentication settings row, the writes issued to it and the audit log. */
  class AuthenticationStore {
    var config: map<Field, Value>
    /** The `values` of every `DB::update('config', ...)` issued, in order. */
    var writes: seq<map<Field, Value>>
    var audit: seq<AuditEntry>

    ghost predicate Valid()
      reads this
    {
      forall f :: IsColumn(f) ==> f in config
    }

    constructor (row: map<Field, Value>)
      requires forall f :: IsColumn(f) ==> f in row
      ensures Valid()
      ensures config == row && writes == [] && audit == []
    {
      config := row;
      writes := [];
      audit := [];
    }

    /** `DB::update` of the differing fields, issued only when there is one. */
    method StoreChanges(upd: map<Field, Value>)
      requires Valid()
      modifies this`config, this`writes
      ensures Valid()
      ensures config == old(config) + upd
      ensures writes == old(writes) + (if upd == map[] then [] else [upd])
    {
      if upd != map[] {
        config := config + upd;
        writes := writes + [upd];
      } else {
        assert config + upd == config;
      }
    }

    /**
     * `update`: validate; write the differing fields only when there is one;
     * record the audit entry whatever changed; return the supplied keys.
     * `stringFields` and `integerFields` are the strictly and loosely compared
     * groups: `StringFields` and `IntegerFields` as the source lists them.
     */
    method Update(auth: map<Field, Value>, userType: int, schema: Schema, looseEq: (Value, Value) -> bool,
                  stringFields: seq<Field>, integerFields: seq<Field>)
      returns (r: Result<set<Field>, ApiError>)
      requires Valid()
      requires forall f :: f in stringFields ==> IsColumn(f)
      requires forall f :: f in integerFields ==> IsColumn(f)
      modifies this
      ensures Valid()
      ensures ValidateUpdate(auth, userType, schema, old(config)).Failure? ==>
        && r == Failure(ValidateUpdate(auth, userType, schema, old(config)).error)
        && config == old(config) && writes == old(writes) && audit == old(audit)
      ensures ValidateUpdate(auth, userType, schema, old(config)).Success? ==>
        var upd := Changes(auth, old(config), stringFields, integerFields, looseEq);
        && r == Success(auth.Keys)
        && config == old(config) + upd
        && writes == old(writes) + (if upd == map[] then [] else [upd])
        && audit == old(audit) + [AuditEntry(auth[ConfigId := old(config)[ConfigId]], old(config))]
    {
      ghost var row0 := config;
      var validated := ValidateUpdate(auth, userType, schema, config);
      if validated.Failure? {
        return Failure(validated.error);
      }
      var dbAuth := validated.value;
      assert dbAuth == row0;
      var upd := CollectChanges(auth, dbAuth, stringFields, integerFields, looseEq);
      StoreChanges(upd);
      audit := audit + [AuditEntry(auth[ConfigId := dbAuth[ConfigId]], dbAuth)];
      r := Success(auth.Keys);
    }
  }

  // ---------------------------------------------------------------------------
  // Properties of the field diff

  /** `passwd_min_length` and `passwd_check_rules` are in neither group, so they are never written. */
  lemma PasswdSettingsNeverWritten(auth: map<Field, Value>, db: map<Field, Value>, looseEq: (Value, Value) -> bool)
    ensures PasswdMinLength !in Changes(auth, db, StringFields, IntegerFields, looseEq)
    ensures PasswdCheckRules !in Changes(auth, db, StringFields, IntegerFields, looseEq)
    ensures PasswdMinLength !in Changes(auth, db, CorrectedStringFields, CorrectedIntegerFields, looseEq)
    ensures PasswdCheckRules !in Changes(auth, db, CorrectedStringFields, CorrectedIntegerFields, looseEq)
  {
    GroupsAsWritten();
    GroupsCorrected();
  }

  /** After the write, a field the caller did not supply keeps its stored value. */
  lemma UnsuppliedFieldsKept(auth: map<Field, Value>, db: map<Field, Value>,
                             stringFields: seq<Field>, integerFields: seq<Field>, looseEq: (Value, Value) -> bool,
                             f: Field)
    requires forall g :: g in stringFields ==> g in db
    requires forall g :: g in integerFields ==> g in db
    requires f in db && f !in auth
    ensures (db + Changes(auth, db, stringFields, integerFields, looseEq))[f] == db[f]
  {
  }

  /** When every supplied field equals its stored value, nothing is to be written. */
  lemma SameValuesWriteNothing(auth: map<Field, Value>, db: map<Field, Value>,
                               stringFields: seq<Field>, integerFields: seq<Field>, looseEq: (Value, Value) -> bool)
    requires Reflexive(looseEq)
    requires forall g :: g in stringFields ==> g in db
    requires forall g :: g in integerFields ==> g in db
    requires forall f :: f in auth ==> f in db && auth[f] == db[f]
    ensures Changes(auth, db, stringFields, integerFields, looseEq) == map[]
  {
    forall f | f in auth
      ensures !Differs(f, auth, db, stringFields, integerFields, looseEq)
    {
      assert looseEq(auth[f], auth[f]);
    }
  }

  /** Repeating an update right after it writes nothing: the diff is idempotent. */
  lemma UpdateIdempotent(auth: map<Field, Value>, db: map<Field, Value>,
                         stringFields: seq<Field>, integerFields: seq<Field>, looseEq: (Value, Value) -> bool)
    requires Reflexive(looseEq)
    requires forall g :: g in stringFields ==> g in db
    requires forall g :: g in integerFields ==> g in db
    ensures var db' := db + Changes(auth, db, stringFields, integerFields, looseEq);
      Changes(auth, db', stringFields, integerFields, looseEq) == map[]
  {
    var upd := Changes(auth, db, stringFields, integerFields, looseEq);
    var db' := db + upd;
    forall f | f in auth && f in db'
      ensures !Differs(f, auth, db', stringFields, integerFields, looseEq)
    {
      if f in upd {
        assert db'[f] == auth[f];
        assert looseEq(auth[f], auth[f]);
      } else {
        assert db'[f] == db[f];
      }
    }
  }

  // ---------------------------------------------------------------------------
  // SAML string settings compared loosely

  /** The value of a non-empty string of decimal digits. */
  function DecimalValue(s: string): (r: Option<nat>)
    ensures r.Some? <==> |s| > 0 && forall i :: 0 <= i < |s| ==> '0' <= s[i] <= '9'
  {
    if |s| == 0 || !('0' <= s[|s| - 1] <= '9') then None
    else if |s| == 1 then Some(s[0] as nat - '0' as nat)
    else match DecimalValue(s[..|s| - 1])
      case None => None
      case Some(v) => Some(10 * v + (s[|s| - 1] as nat - '0' as nat))
  }

  /**
   * A fragment of PHP 8's `==` on scalars: integers compare by value, and a
   * string of decimal digits compares numerically with an integer or another
   * such string; any other pair is equal only when identical. On integers and
   * digit strings within the signed 64-bit range, every pair it calls equal PHP
   * calls equal too; digit strings beyond PHP_INT_MAX, which PHP compares as
   * strings, are outside the fragment.
   */
  predicate PhpLooseEqual(a: Value, b: Value) {
    match (a, b)
    case (Int(x), Int(y)) => x == y
    case (Str(x), Str(y)) =>
      if DecimalValue(x).Some? && DecimalValue(y).Some? then DecimalValue(x).value == DecimalValue(y).value
      else x == y
    case (Int(x), Str(y)) => DecimalValue(y) == Some(x)
    case (Str(x), Int(y)) => DecimalValue(x) == Some(y)
  }

  lemma PhpLooseEqualReflexive()
    ensures Reflexive(PhpLooseEqual)
  {
  }

  /**
   * As written, changing `saml_sp_entityid` from "1" to "01" writes nothing:
   * the stored row keeps "1" (the new row `Update` produces with these groups),
   * although the two strings differ and the call reports the field as updated.
   */
  lemma LooseSamlComparisonDropsChange(db: map<Field, Value>)
    requires SamlSpEntityid in db && db[SamlSpEntityid] == Str("1")
    ensures var auth := map[SamlSpEntityid := Str("01")];
      && auth[SamlSpEntityid] != db[SamlSpEntityid]
      && SamlSpEntityid !in Changes(auth, db, StringFields, IntegerFields, PhpLooseEqual)
      && (db + Changes(auth, db, StringFields, IntegerFields, PhpLooseEqual))[SamlSpEntityid] == Str("1")
  {
    assert DecimalValue("0") == Some(0);
    assert DecimalValue("01") == Some(1);
    assert PhpLooseEqual(Str("01"), Str("1"));
  }

  /** With the corrected groups every string setting is compared strictly,
      whatever the loose comparison is, and every other written setting loosely. */
  lemma CorrectedGroupsCompareByType(auth: map<Field, Value>, db: map<Field, Value>,
                                     looseEq: (Value, Value) -> bool, f: Field)
    requires forall g :: IsColumn(g) ==> g in db
    requires f in auth && IsColumn(f)
    ensures var upd := Changes(auth, db, CorrectedStringFields, CorrectedIntegerFields, looseEq);
      && (IsStringField(f) ==> (f in upd <==> auth[f] != db[f]))
      && (WritableColumn(f) && !IsStringField(f) ==> (f in upd <==> !looseEq(auth[f], db[f])))
  {
    GroupsCorrected();
  }
}
