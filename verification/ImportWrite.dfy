/**
 * How `importBundle.ts` makes its write: the silent validator on the bundle alone, the host
 * recorded beside it, and the warnings judged again by what the merge left.
 */
module ImportWrite {
  import opened Text
  import opened ConfigRecord
  import opened Credentials
  import ConfigSave
  import I = ImportBundle

  /** `{ bundle: json }` and nothing else. */
  function OnlyBundle(json: string): Values {
    Values(Some(json), None, None, None, None, None, None, [])
  }

  function AsImported(b: Bundle): I.Bundle {
    if b.kind == Api then I.ApiBundle(b.key, b.signer) else I.AdminBundle(b.key, b.signer)
  }

  /** `applyResolvedBaseUrl`: None is the default host, which is not pinned but unpinned. */
  function WithHost(d: Draft, host: Option<string>): Draft {
    if host.Some? then d.(updates := d.updates[BaseUrl := Str(host.value)])
    else d.(clear := d.clear + [BaseUrl])
  }

  /** The bundle parser and the signer's derivation give addresses that the loader accepts back. */
  ghost predicate GoodAddresses(pol: Policy, rules: Rules, b: Bundle) {
    && (b.owner.Some? ==> pol.validAddress(b.owner.value))
    && (b.keyAdmin.Some? ==> pol.validAddress(b.keyAdmin.value))
    && pol.validAddress(rules.derive(b.signer))
  }

  lemma ImportedField(pol: Policy, rules: Rules, json: string, b: Bundle, d: Draft, f: Field)
    requires Accepts(OnlyBundle(json), rules) && IsWrite(OnlyBundle(json), rules, map[], d)
    requires BundleOf(OnlyBundle(json), rules) == Some(b) && GoodAddresses(pol, rules, b)
    ensures f in d.updates ==> f !in d.clear && f != BaseUrl && ConfigSave.StorableField(pol, f, d.updates[f])
    ensures f in d.clear ==> f == WebAccountAddress || f == KeyAdminAddress
    ensures b.kind == Api ==> f in d.updates ==> f !in ADMIN_FIELDS
  {
    assert Gives(d.updates, f, Wanted(OnlyBundle(json), rules, f));
    assert f in d.clear <==> Cleared(OnlyBundle(json), rules, map[], f);
  }

  lemma ImportedPair(rules: Rules, json: string, b: Bundle, d: Draft)
    requires Accepts(OnlyBundle(json), rules) && IsWrite(OnlyBundle(json), rules, map[], d)
    requires BundleOf(OnlyBundle(json), rules) == Some(b)
    ensures I.HoldsPair(d.updates, AsImported(b))
  {
    var v := OnlyBundle(json);
    assert Gives(d.updates, ApiKey, Wanted(v, rules, ApiKey));
    assert Gives(d.updates, ServicePrivateKey, Wanted(v, rules, ServicePrivateKey));
    assert Gives(d.updates, AdminKey, Wanted(v, rules, AdminKey));
    assert Gives(d.updates, AdminServicePrivateKey, Wanted(v, rules, AdminServicePrivateKey));
  }

  /** Every write an accepted bundle leads to is one the crash and retry results are about. */
  lemma ImportedWriteIsWellFormed(pol: Policy, rules: Rules, json: string, b: Bundle, d: Draft, host: Option<string>)
    requires Accepts(OnlyBundle(json), rules) && IsWrite(OnlyBundle(json), rules, map[], d)
    requires BundleOf(OnlyBundle(json), rules) == Some(b) && GoodAddresses(pol, rules, b)
    requires host.Some? ==> pol.allowedUrl(host.value)
    ensures I.WellFormed(pol, AsImported(b), WithHost(d, host).updates, WithHost(d, host).clear)
  {
    var w := WithHost(d, host);
    ImportedPair(rules, json, b, d);
    forall f: Field
      ensures f in w.updates ==> f !in w.clear && ConfigSave.StorableField(pol, f, w.updates[f])
      ensures f in w.clear ==> f !in ADMIN_FIELDS && f != ApiKey
      ensures b.kind == Api ==> f in w.updates ==> f !in ADMIN_FIELDS
    {
      ImportedField(pol, rules, json, b, d, f);
    }
  }

  /** After an import the host is the one that was recorded, or, for the default one, none at all. */
  lemma HostIsRecorded(rules: Rules, json: string, d: Draft, host: Option<string>, before: Config)
    requires Accepts(OnlyBundle(json), rules) && IsWrite(OnlyBundle(json), rules, map[], d)
    ensures var merged := MergedWith(before, WithHost(d, host));
      if host.Some? then BaseUrl in merged && merged[BaseUrl] == Str(host.value) else BaseUrl !in merged
  {
    assert Gives(d.updates, BaseUrl, Wanted(OnlyBundle(json), rules, BaseUrl));
    assert BaseUrl in d.clear <==> Cleared(OnlyBundle(json), rules, map[], BaseUrl);
  }

  /** The warnings that are left when the merge has said what it left. */
  function Surviving(warnings: seq<Warning>, merged: Config): seq<Warning> {
    if warnings == [] then []
    else
      var rest := Surviving(warnings[1..], merged);
      if (warnings[0] == NoOwnerPin && WebAccountAddress in merged) || (warnings[0] == NoKeyAdminPin && KeyAdminAddress in merged)
      then rest else [warnings[0]] + rest
  }

  lemma {:induction false} SurvivingIs(warnings: seq<Warning>, merged: Config, w: Warning)
    ensures w in Surviving(warnings, merged) <==>
      w in warnings && !(w == NoOwnerPin && WebAccountAddress in merged) && !(w == NoKeyAdminPin && KeyAdminAddress in merged)
  {
    if warnings != [] {
      SurvivingIs(warnings[1..], merged, w);
    }
  }

  /**
   * The warnings were computed against an empty record; after the filter each still stands exactly
   * when the record that was really written lacks that pin.
   */
  lemma SurvivingWarningsAreTrue(rules: Rules, json: string, d: Draft, host: Option<string>, before: Config)
    requires Accepts(OnlyBundle(json), rules) && IsWrite(OnlyBundle(json), rules, map[], d)
    requires WarnsTruly(OnlyBundle(json), map[], false, d)
    ensures var merged := MergedWith(before, WithHost(d, host));
      var left := Surviving(d.warnings, merged);
      && (NoOwnerPin in left <==> WebAccountAddress !in merged)
      && (NoKeyAdminPin in left <==> KeyAdminAddress !in merged)
  {
    var v := OnlyBundle(json);
    var merged := MergedWith(before, WithHost(d, host));
    SurvivingIs(d.warnings, merged, NoOwnerPin);
    SurvivingIs(d.warnings, merged, NoKeyAdminPin);
    SilentWritesAreCoherent(v, rules, map[], d);
    assert WebAccountAddress in d.updates ==> WebAccountAddress in merged;
    assert KeyAdminAddress in d.updates ==> KeyAdminAddress in merged;
  }
}
