/**
 * `validateSilent` of `credentials.ts`: what a scripted install may write from its flags and its
 * credential bundle, decided without asking anyone.
 */
module Credentials {
  import opened Text
  import opened ConfigRecord
  import opened ConfigSave

  datatype Kind = Api | Admin

  /** A parsed bundle; an address it carries as null is None. */
  datatype Bundle = Bundle(kind: Kind, key: string, signer: string, owner: Option<string>, keyAdmin: Option<string>)

  datatype Values = Values(bundle: Option<string>, apiKey: Option<string>, serviceKey: Option<string>,
                           adminKey: Option<string>, adminSigner: Option<string>,
                           ownerAddress: Option<string>, keyAdminAddress: Option<string>, allowedDirs: seq<string>)

  datatype Error =
    | NoCredentials | BadBundle | Conflict | BadOwnerFlag | BadKeyAdminFlag | SeedDisagrees
    | Rejected(kind: Kind) | PinMismatch | BadKey(kind: Kind) | BadSigner(kind: Kind)
    | MissingAdminKey | MissingAdminSigner | BadDirectory

  datatype Warning = NoOwnerPin | NoKeyAdminPin

  /**
   * What this model does not look inside: the parsers and format checks, address normalisation, the
   * address a signer derives, and whether the Console accepts a key of a kind.
   */
  datatype Rules = Rules(
    parseBundle: string -> Option<Bundle>,
    validAddress: string -> bool,
    normalize: string -> string,
    validSigner: string -> bool,
    keyFormat: (Kind, string) -> bool,
    derive: string -> string,
    probe: (Kind, string) -> bool,
    directory: string -> Option<string>)

  /** The write, with what to tell the operator. */
  datatype Draft = Draft(updates: Config, clear: seq<Field>, errors: seq<Error>, warnings: seq<Warning>)

  /** JavaScript's truthiness of an optional string. */
  predicate Given(s: Option<string>) {
    s.Some? && s.value != ""
  }

  // ---- What is accepted -------------------------------------------------------------------------------

  predicate AnythingGiven(v: Values) {
    || Given(v.apiKey) || Given(v.serviceKey) || Given(v.adminKey) || Given(v.adminSigner) || Given(v.bundle)
    || Given(v.ownerAddress) || Given(v.keyAdminAddress) || v.allowedDirs != []
  }

  predicate FlagOk(rules: Rules, address: Option<string>) {
    address.Some? ==> rules.validAddress(address.value)
  }

  function BundleOf(v: Values, rules: Rules): Option<Bundle> {
    if Given(v.bundle) then rules.parseBundle(v.bundle.value) else None
  }

  predicate ConflictsWith(b: Bundle, v: Values) {
    if b.kind == Api then Given(v.apiKey) || Given(v.serviceKey) else Given(v.adminKey) || Given(v.adminSigner)
  }

  /** A flag and the bundle name different addresses; an admin bundle's null names none. */
  predicate Disagrees(rules: Rules, b: Bundle, seed: Option<string>, bundled: Option<string>) {
    seed.Some? && if bundled.Some? then rules.normalize(seed.value) != rules.normalize(bundled.value) else b.kind == Api
  }

  predicate PinAgrees(rules: Rules, signer: string, pin: Option<string>) {
    pin.Some? ==> rules.normalize(pin.value) == rules.normalize(rules.derive(signer))
  }

  function OrElse(a: Option<string>, b: Option<string>): Option<string> {
    if a.Some? then a else b
  }

  predicate BundleOk(v: Values, rules: Rules, b: Bundle) {
    && !ConflictsWith(b, v)
    && FlagOk(rules, v.ownerAddress) && FlagOk(rules, v.keyAdminAddress)
    && !Disagrees(rules, b, v.ownerAddress, b.owner) && !Disagrees(rules, b, v.keyAdminAddress, b.keyAdmin)
    && rules.probe(b.kind, b.key)
    && (b.kind == Admin ==> PinAgrees(rules, b.signer, OrElse(b.keyAdmin, v.keyAdminAddress)))
  }

  predicate KeyOk(rules: Rules, kind: Kind, key: string) {
    rules.keyFormat(kind, key) && rules.probe(kind, key)
  }

  /** The pin known before the management pair is looked at. */
  function EarlierPin(v: Values, b: Option<Bundle>): Option<string> {
    if b.Some? then b.value.keyAdmin else v.keyAdminAddress
  }

  predicate IsKind(b: Option<Bundle>, kind: Kind) {
    b.Some? && b.value.kind == kind
  }

  predicate WorkingOk(v: Values, rules: Rules, b: Option<Bundle>) {
    IsKind(b, Api) || ((Given(v.apiKey) ==> KeyOk(rules, Api, v.apiKey.value)) && (Given(v.serviceKey) ==> rules.validSigner(v.serviceKey.value)))
  }

  predicate ManagementAsked(v: Values, b: Option<Bundle>) {
    !IsKind(b, Admin) && (Given(v.adminKey) || Given(v.adminSigner))
  }

  predicate ManagementOk(v: Values, rules: Rules, b: Option<Bundle>) {
    ManagementAsked(v, b) ==>
      && Given(v.adminKey) && Given(v.adminSigner)
      && KeyOk(rules, Admin, v.adminKey.value) && rules.validSigner(v.adminSigner.value)
      && PinAgrees(rules, v.adminSigner.value, EarlierPin(v, b))
  }

  predicate DirsOk(v: Values, rules: Rules) {
    forall i :: 0 <= i < |v.allowedDirs| ==> rules.directory(v.allowedDirs[i]).Some?
  }

  /** Everything that must hold for anything to be written. */
  predicate Accepts(v: Values, rules: Rules) {
    var b := BundleOf(v, rules);
    && AnythingGiven(v)
    && (if Given(v.bundle) then b.Some? && BundleOk(v, rules, b.value)
        else FlagOk(rules, v.ownerAddress) && FlagOk(rules, v.keyAdminAddress))
    && WorkingOk(v, rules, b) && ManagementOk(v, rules, b) && DirsOk(v, rules)
  }

  // ---- What is written, field by field -------------------------------------------------------------------

  function Flag(s: Option<string>): Option<Value> {
    if Given(s) then Some(Str(s.value)) else None
  }

  function Address(s: Option<string>): Option<Value> {
    if s.Some? then Some(Str(s.value)) else None
  }

  /** The admin signer this write saves, from the bundle or the flag. */
  function AdminSigner(v: Values, b: Option<Bundle>): Option<string> {
    if IsKind(b, Admin) then Some(b.value.signer) else if Given(v.adminSigner) then v.adminSigner else None
  }

  function Dedup(dirs: seq<string>): seq<string> {
    if dirs == [] then []
    else
      var before := Dedup(dirs[..|dirs| - 1]);
      if dirs[|dirs| - 1] in before then before else before + [dirs[|dirs| - 1]]
  }

  function Directories(rules: Rules, raw: seq<string>): seq<string>
    requires forall i :: 0 <= i < |raw| ==> rules.directory(raw[i]).Some?
  {
    if raw == [] then [] else Directories(rules, raw[..|raw| - 1]) + [rules.directory(raw[|raw| - 1]).value]
  }

  /** The value a write gives a field, if it gives it one. */
  function Wanted(v: Values, rules: Rules, f: Field): Option<Value>
    requires DirsOk(v, rules)
  {
    var b := BundleOf(v, rules);
    match f
    case ApiKey => if IsKind(b, Api) then Some(Str(b.value.key)) else Flag(v.apiKey)
    case ServicePrivateKey => if IsKind(b, Api) then Some(Str(b.value.signer)) else Flag(v.serviceKey)
    case AdminKey => if IsKind(b, Admin) then Some(Str(b.value.key)) else Flag(v.adminKey)
    case AdminServicePrivateKey => Address(AdminSigner(v, b))
    case KeyAdminAddress =>
      if AdminSigner(v, b).Some? then Some(Str(rules.derive(AdminSigner(v, b).value))) else Address(EarlierPin(v, b))
    case WebAccountAddress =>
      if b.None? then Address(v.ownerAddress)
      else if b.value.owner.None? && b.value.kind == Admin && v.ownerAddress.Some?
      then Some(Str(rules.normalize(v.ownerAddress.value)))
      else Address(b.value.owner)
    case AllowedDirs => if v.allowedDirs == [] then None else Some(Dirs(Dedup(Directories(rules, v.allowedDirs))))
    case BaseUrl => None
  }

  /** The fields a write removes: pins a working bundle says there are none of, and a stranded signer. */
  predicate Cleared(v: Values, rules: Rules, existing: Config, f: Field) {
    var b := BundleOf(v, rules);
    match f
    case WebAccountAddress => IsKind(b, Api) && b.value.owner.None?
    case KeyAdminAddress => IsKind(b, Api) && b.value.keyAdmin.None? && AdminSigner(v, b).None?
    case ServicePrivateKey =>
      !IsKind(b, Api) && Given(v.apiKey) && !Given(v.serviceKey) && TextOf(existing, ServicePrivateKey) != ""
    case _ => false
  }

  // ---- The blocks of the function, one after the other ------------------------------------------------------

  const EMPTY_DRAFT := Draft(map[], [], [], [])

  function Fail(d: Draft, e: Error): Draft {
    d.(errors := d.errors + [e])
  }

  function Set(d: Draft, f: Field, s: string): Draft {
    d.(updates := d.updates[f := Str(s)])
  }

  /** `validateAddressFlag`. */
  method ValidateAddressFlag(rules: Rules, value: Option<string>, f: Field, error: Error, d: Draft) returns (r: Draft)
    ensures r == if value.None? then d else if rules.validAddress(value.value) then Set(d, f, value.value) else Fail(d, error)
  {
    r := d;
    if value.Some? {
      if rules.validAddress(value.value) {
        r := Set(r, f, value.value);
      } else {
        r := Fail(r, error);
      }
    }
  }

  /** The signer with the pin it derives, over what the write already had. */
  function Pinned(rules: Rules, updates: Config, signer: string): Config {
    updates[AdminServicePrivateKey := Str(signer)][KeyAdminAddress := Str(rules.derive(signer))]
  }

  /** Signer and pin as they go together, every other field untouched. */
  predicate CarriesItsPin(rules: Rules, updates: Config, signer: string, r: Config) {
    && r.Keys == updates.Keys + {AdminServicePrivateKey, KeyAdminAddress}
    && r[AdminServicePrivateKey] == Str(signer) && r[KeyAdminAddress] == Str(rules.derive(signer))
    && forall f :: f in updates && f != AdminServicePrivateKey && f != KeyAdminAddress ==> r[f] == updates[f]
  }

  lemma OnlyOneCarries(rules: Rules, updates: Config, signer: string, r: Config)
    ensures CarriesItsPin(rules, updates, signer, r) <==> r == Pinned(rules, updates, signer)
  {
    if CarriesItsPin(rules, updates, signer, r) {
      assert forall f :: f in r <==> f in Pinned(rules, updates, signer);
      assert forall f :: f in r ==> r[f] == Pinned(rules, updates, signer)[f];
    }
  }

  /** `applyDerivedAdminPin`: None is the error. */
  method ApplyDerivedAdminPin(rules: Rules, updates: Config, signer: string, pin: Option<string>) returns (r: Option<Config>)
    ensures r.None? <==> pin.Some? && rules.normalize(pin.value) != rules.normalize(rules.derive(signer))
    ensures r.Some? ==> CarriesItsPin(rules, updates, signer, r.value)
  {
    var derived := rules.derive(signer);
    if pin.Some? && rules.normalize(pin.value) != rules.normalize(derived) {
      return None;
    }
    var now := updates[AdminServicePrivateKey := Str(signer)];
    now := now[KeyAdminAddress := Str(derived)];
    OnlyOneCarries(rules, updates, signer, now);
    r := Some(now);
  }

  /** What `bundleWrite` maps a bundle to. */
  function BundleUpdates(rules: Rules, b: Bundle, seeds: Option<string>): Config {
    (if b.kind == Api then map[ApiKey := Str(b.key), ServicePrivateKey := Str(b.signer)]
     else map[AdminKey := Str(b.key), AdminServicePrivateKey := Str(b.signer)])
    + (if b.owner.Some? then map[WebAccountAddress := Str(b.owner.value)]
       else if b.kind == Admin && seeds.Some? then map[WebAccountAddress := Str(rules.normalize(seeds.value))] else map[])
    + (if b.keyAdmin.Some? then map[KeyAdminAddress := Str(b.keyAdmin.value)] else map[])
  }

  function BundleClear(b: Bundle): seq<Field> {
    (if b.kind == Api && b.owner.None? then [WebAccountAddress] else [])
    + (if b.kind == Api && b.keyAdmin.None? then [KeyAdminAddress] else [])
  }

  /** `bundleWrite`. */
  method BundleWrite(rules: Rules, b: Bundle, owner: Option<string>) returns (updates: Config, clear: seq<Field>)
    ensures updates == BundleUpdates(rules, b, owner) && clear == BundleClear(b)
  {
    updates, clear := map[], [];
    if b.kind == Api {
      updates := updates[ApiKey := Str(b.key)][ServicePrivateKey := Str(b.signer)];
    } else {
      updates := updates[AdminKey := Str(b.key)][AdminServicePrivateKey := Str(b.signer)];
    }
    if b.owner.Some? {
      updates := updates[WebAccountAddress := Str(b.owner.value)];
    } else if b.kind == Api {
      clear := clear + [WebAccountAddress];
    } else if owner.Some? {
      updates := updates[WebAccountAddress := Str(rules.normalize(owner.value))];
    }
    if b.keyAdmin.Some? {
      updates := updates[KeyAdminAddress := Str(b.keyAdmin.value)];
    } else if b.kind == Api {
      clear := clear + [KeyAdminAddress];
    }
  }

  predicate PinSurvives(f: Field, updates: Config, clear: seq<Field>, existing: Config) {
    f in updates || (f in existing && f !in clear)
  }

  function PinWarnings(updates: Config, clear: seq<Field>, existing: Config): seq<Warning> {
    (if PinSurvives(WebAccountAddress, updates, clear, existing) then [] else [NoOwnerPin])
    + (if PinSurvives(KeyAdminAddress, updates, clear, existing) then [] else [NoKeyAdminPin])
  }

  /** The updates of an accepted bundle, its own derived pin included. */
  function BundleTable(v: Values, rules: Rules, b: Bundle): Config {
    var updates := BundleUpdates(rules, b, v.ownerAddress);
    if b.kind == Admin then Pinned(rules, updates, b.signer) else updates
  }

  /** The branch taken when a bundle was given and parsed. */
  method BundleBlock(v: Values, rules: Rules, b: Bundle, existing: Config) returns (d: Draft)
    ensures d.errors == [] <==> BundleOk(v, rules, b)
    ensures d.errors == [] ==>
      d == Draft(BundleTable(v, rules, b), BundleClear(b), [], PinWarnings(BundleTable(v, rules, b), BundleClear(b), existing))
  {
    d := EMPTY_DRAFT;
    if ConflictsWith(b, v) {
      return Fail(d, Conflict);
    }
    if v.ownerAddress.Some? && !rules.validAddress(v.ownerAddress.value) {
      d := Fail(d, BadOwnerFlag);
    }
    if v.keyAdminAddress.Some? && !rules.validAddress(v.keyAdminAddress.value) {
      d := Fail(d, BadKeyAdminFlag);
    }
    if d.errors == [] && (Disagrees(rules, b, v.ownerAddress, b.owner) || Disagrees(rules, b, v.keyAdminAddress, b.keyAdmin)) {
      d := Fail(d, SeedDisagrees);
    }
    if d.errors != [] {
      return;
    }
    if !rules.probe(b.kind, b.key) {
      return Fail(d, Rejected(b.kind));
    }
    var updates, clear := BundleWrite(rules, b, v.ownerAddress);
    if b.kind == Admin {
      var pinned := ApplyDerivedAdminPin(rules, updates, b.signer, OrElse(b.keyAdmin, v.keyAdminAddress));
      if pinned.Some? {
        OnlyOneCarries(rules, updates, b.signer, pinned.value);
        updates := pinned.value;
      } else {
        d := Fail(d, PinMismatch);
      }
    }
    d := Draft(updates, clear, d.errors, PinWarnings(updates, clear, existing));
  }

  function FlagTable(v: Values): Config {
    (if v.ownerAddress.Some? then map[WebAccountAddress := Str(v.ownerAddress.value)] else map[])
    + (if v.keyAdminAddress.Some? then map[KeyAdminAddress := Str(v.keyAdminAddress.value)] else map[])
  }

  /** What the first part leaves, whichever branch it takes. */
  function FirstTable(v: Values, rules: Rules): Config {
    match BundleOf(v, rules) case Some(b) => BundleTable(v, rules, b) case None => FlagTable(v)
  }

  function FirstClear(v: Values, rules: Rules): seq<Field> {
    match BundleOf(v, rules) case Some(b) => BundleClear(b) case None => []
  }

  predicate FirstOk(v: Values, rules: Rules) {
    if Given(v.bundle) then BundleOf(v, rules).Some? && BundleOk(v, rules, BundleOf(v, rules).value)
    else FlagOk(rules, v.ownerAddress) && FlagOk(rules, v.keyAdminAddress)
  }

  method FirstBlock(v: Values, rules: Rules, existing: Config) returns (d: Draft)
    ensures d.errors == [] <==> FirstOk(v, rules)
    ensures d.errors == [] ==>
      && d.updates == FirstTable(v, rules) && d.clear == FirstClear(v, rules)
      && d.warnings == if Given(v.bundle) then PinWarnings(d.updates, d.clear, existing) else []
  {
    if Given(v.bundle) {
      var parsed := rules.parseBundle(v.bundle.value);
      if parsed.None? {
        return Fail(EMPTY_DRAFT, BadBundle);
      }
      d := BundleBlock(v, rules, parsed.value, existing);
    } else {
      d := ValidateAddressFlag(rules, v.ownerAddress, WebAccountAddress, BadOwnerFlag, EMPTY_DRAFT);
      d := ValidateAddressFlag(rules, v.keyAdminAddress, KeyAdminAddress, BadKeyAdminFlag, d);
    }
  }

  function WorkingTable(v: Values, b: Option<Bundle>): Config {
    if IsKind(b, Api) then map[]
    else
      (if Given(v.apiKey) then map[ApiKey := Str(v.apiKey.value)] else map[])
      + (if Given(v.serviceKey) then map[ServicePrivateKey := Str(v.serviceKey.value)] else map[])
  }

  predicate Strands(v: Values, b: Option<Bundle>, existing: Config) {
    !IsKind(b, Api) && Given(v.apiKey) && !Given(v.serviceKey) && TextOf(existing, ServicePrivateKey) != ""
  }

  /** The working pair, unless a working bundle supplied it. */
  method WorkingBlock(v: Values, rules: Rules, b: Option<Bundle>, existing: Config, d: Draft) returns (r: Draft)
    ensures r.errors == [] <==> d.errors == [] && WorkingOk(v, rules, b)
    ensures r.errors == [] ==>
      r == Draft(d.updates + WorkingTable(v, b), d.clear + (if Strands(v, b, existing) then [ServicePrivateKey] else []), [], d.warnings)
  {
    r := d;
    if !IsKind(b, Api) {
      if Given(v.apiKey) {
        if !rules.keyFormat(Api, v.apiKey.value) {
          r := Fail(r, BadKey(Api));
        } else if !rules.probe(Api, v.apiKey.value) {
          r := Fail(r, Rejected(Api));
        } else {
          r := Set(r, ApiKey, v.apiKey.value);
        }
      }
      if Given(v.serviceKey) {
        if !rules.validSigner(v.serviceKey.value) {
          r := Fail(r, BadSigner(Api));
        } else {
          r := Set(r, ServicePrivateKey, v.serviceKey.value);
        }
      } else if Given(v.apiKey) && TextOf(existing, ServicePrivateKey) != "" {
        r := r.(clear := r.clear + [ServicePrivateKey]);
      }
    }
  }

  function ManagementTable(v: Values, rules: Rules, b: Option<Bundle>): Config {
    if ManagementAsked(v, b) && Given(v.adminKey) && Given(v.adminSigner)
    then map[AdminKey := Str(v.adminKey.value), AdminServicePrivateKey := Str(v.adminSigner.value),
             KeyAdminAddress := Str(rules.derive(v.adminSigner.value))]
    else map[]
  }

  function Without<T(==, !new)>(s: seq<T>, x: T): (r: seq<T>)
    ensures forall y :: y in r <==> y in s && y != x
  {
    if s == [] then [] else (if s[0] == x then [] else [s[0]]) + Without(s[1..], x)
  }

  /** A pin already decided by this write, which the derived one must agree with. */
  function PinIn(updates: Config): Option<string> {
    if KeyAdminAddress in updates && updates[KeyAdminAddress].Str? then Some(updates[KeyAdminAddress].s) else None
  }

  lemma PinnedPair(v: Values, rules: Rules, b: Option<Bundle>, updates: Config)
    requires ManagementAsked(v, b) && Given(v.adminKey) && Given(v.adminSigner)
    ensures Pinned(rules, updates[AdminKey := Str(v.adminKey.value)], v.adminSigner.value) == updates + ManagementTable(v, rules, b)
  {
  }

  /** The formats of the pair, and that both halves are there. */
  predicate PairFormatOk(v: Values, rules: Rules) {
    && Given(v.adminKey) && Given(v.adminSigner)
    && rules.keyFormat(Admin, v.adminKey.value) && rules.validSigner(v.adminSigner.value)
  }

  method CheckPairFormat(v: Values, rules: Rules, d: Draft) returns (r: Draft)
    ensures r == d.(errors := r.errors) && |r.errors| >= |d.errors|
    ensures |r.errors| == |d.errors| <==> PairFormatOk(v, rules)
    ensures |r.errors| == |d.errors| ==> r == d
  {
    r := d;
    if Given(v.adminKey) {
      if !rules.keyFormat(Admin, v.adminKey.value) {
        r := Fail(r, BadKey(Admin));
      }
    } else {
      r := Fail(r, MissingAdminKey);
    }
    if !Given(v.adminSigner) {
      r := Fail(r, MissingAdminSigner);
    } else if !rules.validSigner(v.adminSigner.value) {
      r := Fail(r, BadSigner(Admin));
    }
  }

  /** The management pair, unless a management bundle supplied it. */
  method ManagementBlock(v: Values, rules: Rules, b: Option<Bundle>, d: Draft) returns (r: Draft)
    requires d.errors == [] && !IsKind(b, Admin) ==> PinIn(d.updates) == EarlierPin(v, b)
    ensures r.errors == [] <==> d.errors == [] && ManagementOk(v, rules, b)
    ensures r.errors == [] ==>
      if ManagementAsked(v, b)
      then r == Draft(d.updates + ManagementTable(v, rules, b), Without(d.clear, KeyAdminAddress), [], Without(d.warnings, NoKeyAdminPin))
      else r == d
  {
    r := d;
    if !ManagementAsked(v, b) {
      return;
    }
    r := CheckPairFormat(v, rules, d);
    if |r.errors| > |d.errors| {
      return;
    }
    if !rules.probe(Admin, v.adminKey.value) {
      return Fail(r, Rejected(Admin));
    }
    r := Set(r, AdminKey, v.adminKey.value);
    var pinned := ApplyDerivedAdminPin(rules, r.updates, v.adminSigner.value, PinIn(r.updates));
    if pinned.None? {
      return Fail(r, PinMismatch);
    }
    OnlyOneCarries(rules, r.updates, v.adminSigner.value, pinned.value);
    PinnedPair(v, rules, b, d.updates);
    r := r.(updates := pinned.value, clear := Without(r.clear, KeyAdminAddress), warnings := Without(r.warnings, NoKeyAdminPin));
  }

  method DirectoryBlock(v: Values, rules: Rules, d: Draft) returns (r: Draft)
    ensures r.errors == [] <==> d.errors == [] && DirsOk(v, rules)
    ensures r.errors == [] ==>
      r == if v.allowedDirs == [] then d
           else d.(updates := d.updates[AllowedDirs := Dirs(Dedup(Directories(rules, v.allowedDirs)))])
  {
    r := d;
    if v.allowedDirs == [] {
      return;
    }
    var dirs: seq<string> := [];
    for i := 0 to |v.allowedDirs|
      invariant r == d.(errors := r.errors)
      invariant r.errors == [] <==> d.errors == [] && forall j :: 0 <= j < i ==> rules.directory(v.allowedDirs[j]).Some?
      invariant r.errors == [] ==> dirs == Dedup(Directories(rules, v.allowedDirs[..i]))
    {
      var result := rules.directory(v.allowedDirs[i]);
      assert v.allowedDirs[..i + 1][..i] == v.allowedDirs[..i];
      if result.None? {
        r := Fail(r, BadDirectory);
      } else {
        if result.value !in dirs {
          dirs := dirs + [result.value];
        }
      }
    }
    assert v.allowedDirs[..|v.allowedDirs|] == v.allowedDirs;
    if r.errors == [] {
      r := r.(updates := r.updates[AllowedDirs := Dirs(dirs)]);
    }
  }

  // ---- The whole function -------------------------------------------------------------------------------------

  /** The four parts, one on top of the other. */
  function Table(v: Values, rules: Rules): Config
    requires DirsOk(v, rules)
  {
    var b := BundleOf(v, rules);
    var pairs := FirstTable(v, rules) + WorkingTable(v, b) + ManagementTable(v, rules, b);
    if v.allowedDirs == [] then pairs else pairs[AllowedDirs := Dirs(Dedup(Directories(rules, v.allowedDirs)))]
  }

  predicate Gives(updates: Config, f: Field, value: Option<Value>) {
    (f in updates <==> value.Some?) && (f in updates ==> updates[f] == value.value)
  }

  function At(updates: Config, f: Field): (v: Option<Value>)
    ensures Gives(updates, f, v)
  {
    if f in updates then Some(updates[f]) else None
  }

  function Over(a: Option<Value>, b: Option<Value>): Option<Value> {
    if b.Some? then b else a
  }

  lemma Overlay(a: Config, b: Config, f: Field)
    ensures At(a + b, f) == Over(At(a, f), At(b, f))
  {
  }

  function FirstAt(v: Values, rules: Rules, f: Field): Option<Value> {
    var b := BundleOf(v, rules);
    match f
    case ApiKey => if IsKind(b, Api) then Some(Str(b.value.key)) else None
    case ServicePrivateKey => if IsKind(b, Api) then Some(Str(b.value.signer)) else None
    case AdminKey => if IsKind(b, Admin) then Some(Str(b.value.key)) else None
    case AdminServicePrivateKey => if IsKind(b, Admin) then Some(Str(b.value.signer)) else None
    case KeyAdminAddress => if IsKind(b, Admin) then Some(Str(rules.derive(b.value.signer))) else Address(EarlierPin(v, b))
    case WebAccountAddress =>
      if b.None? then Address(v.ownerAddress)
      else if b.value.owner.None? && b.value.kind == Admin && v.ownerAddress.Some?
      then Some(Str(rules.normalize(v.ownerAddress.value)))
      else Address(b.value.owner)
    case _ => None
  }

  lemma BundleUpdatesAt(rules: Rules, b: Bundle, owner: Option<string>, f: Field)
    ensures At(BundleUpdates(rules, b, owner), f) == BundleAt(rules, b, owner, f)
  {
  }

  lemma FirstTableAt(v: Values, rules: Rules, f: Field)
    ensures At(FirstTable(v, rules), f) == FirstAt(v, rules, f)
  {
    if BundleOf(v, rules).Some? {
      BundleUpdatesAt(rules, BundleOf(v, rules).value, v.ownerAddress, f);
    }
  }

  lemma WorkingTableAt(v: Values, b: Option<Bundle>, f: Field)
    ensures At(WorkingTable(v, b), f) ==
      if IsKind(b, Api) then None else if f == ApiKey then Flag(v.apiKey) else if f == ServicePrivateKey then Flag(v.serviceKey) else None
  {
  }

  lemma ManagementTableAt(v: Values, rules: Rules, b: Option<Bundle>, f: Field)
    requires ManagementOk(v, rules, b)
    ensures At(ManagementTable(v, rules, b), f) ==
      if !ManagementAsked(v, b) then None
      else if f == AdminKey then Flag(v.adminKey)
      else if f == AdminServicePrivateKey then Flag(v.adminSigner)
      else if f == KeyAdminAddress then Some(Str(rules.derive(v.adminSigner.value)))
      else None
  {
  }

  /** Without a bundle, or where it says nothing, the flags decide. */
  lemma PairFields(v: Values, rules: Rules, f: Field)
    requires Accepts(v, rules) && f != AllowedDirs
    ensures var b := BundleOf(v, rules);
      At(FirstTable(v, rules) + WorkingTable(v, b) + ManagementTable(v, rules, b), f) == Wanted(v, rules, f)
  {
    var b := BundleOf(v, rules);
    Overlay(FirstTable(v, rules) + WorkingTable(v, b), ManagementTable(v, rules, b), f);
    Overlay(FirstTable(v, rules), WorkingTable(v, b), f);
    FirstTableAt(v, rules, f);
    WorkingTableAt(v, b, f);
    ManagementTableAt(v, rules, b, f);
  }

  /** What the parts add up to is the table read field by field. */
  lemma TableIsFieldwise(v: Values, rules: Rules, f: Field)
    requires Accepts(v, rules)
    ensures Gives(Table(v, rules), f, Wanted(v, rules, f))
  {
    if f != AllowedDirs {
      PairFields(v, rules, f);
    }
  }

  function MergedWith(existing: Config, d: Draft): Config {
    Merged(Merge(d.updates, d.clear, (c: Config) => true), existing)
  }

  /** The write is the table, and removes what the table says. */
  ghost predicate IsWrite(v: Values, rules: Rules, existing: Config, d: Draft)
    requires DirsOk(v, rules)
  {
    forall f: Field :: Gives(d.updates, f, Wanted(v, rules, f)) && (f in d.clear <==> Cleared(v, rules, existing, f))
  }

  /** Each missing-pin warning is a statement about the configuration that results. */
  predicate WarnsTruly(v: Values, existing: Config, envOwner: bool, d: Draft) {
    var merged := MergedWith(existing, d);
    if Given(v.bundle) then
      && (NoOwnerPin in d.warnings <==> WebAccountAddress !in merged)
      && (NoKeyAdminPin in d.warnings <==> KeyAdminAddress !in merged)
    else
      && (NoOwnerPin in d.warnings <==> ApiKey in d.updates && TextOf(merged, WebAccountAddress) == "" && !envOwner)
      && NoKeyAdminPin !in d.warnings
  }

  function FinalClear(v: Values, rules: Rules, existing: Config): seq<Field> {
    var b := BundleOf(v, rules);
    var queued := FirstClear(v, rules) + if Strands(v, b, existing) then [ServicePrivateKey] else [];
    if ManagementAsked(v, b) then Without(queued, KeyAdminAddress) else queued
  }

  lemma FinalClearIs(v: Values, rules: Rules, existing: Config, f: Field)
    requires Accepts(v, rules)
    ensures f in FinalClear(v, rules, existing) <==> Cleared(v, rules, existing, f)
  {
  }

  function FinalWarnings(v: Values, rules: Rules, existing: Config): seq<Warning> {
    var queued := if Given(v.bundle) then PinWarnings(FirstTable(v, rules), FirstClear(v, rules), existing) else [];
    if ManagementAsked(v, BundleOf(v, rules)) then Without(queued, NoKeyAdminPin) else queued
  }

  /** The source's own test before the last warning, on the draft it is about to return. */
  predicate WarnsOfOwner(v: Values, existing: Config, envOwner: bool, d: Draft) {
    && TextOf(d.updates, ApiKey) != "" && !Given(v.bundle) && NoOwnerPin !in d.warnings
    && TextOf(d.updates, WebAccountAddress) == ""
    && (WebAccountAddress in d.clear || TextOf(existing, WebAccountAddress) == "")
    && !envOwner
  }

  /** A pin that the management pair did not settle is as the bundle left it. */
  lemma PinStillTrue(v: Values, rules: Rules, existing: Config, d: Draft, f: Field)
    requires Accepts(v, rules) && Given(v.bundle) && (f == WebAccountAddress || f == KeyAdminAddress)
    requires d.updates == Table(v, rules) && d.clear == FinalClear(v, rules, existing)
    ensures f in MergedWith(existing, d) <==>
      || PinSurvives(f, FirstTable(v, rules), FirstClear(v, rules), existing)
      || (f == KeyAdminAddress && ManagementAsked(v, BundleOf(v, rules)))
  {
    TableIsFieldwise(v, rules, f);
    FinalClearIs(v, rules, existing, f);
    FirstTableAt(v, rules, f);
    WrittenIsNotCleared(v, rules, existing, f);
  }

  lemma BundleWarnsTruly(v: Values, rules: Rules, existing: Config, d: Draft)
    requires Accepts(v, rules) && Given(v.bundle)
    requires d == Draft(Table(v, rules), FinalClear(v, rules, existing), [], FinalWarnings(v, rules, existing))
    ensures NoOwnerPin in d.warnings <==> WebAccountAddress !in MergedWith(existing, d)
    ensures NoKeyAdminPin in d.warnings <==> KeyAdminAddress !in MergedWith(existing, d)
  {
    PinStillTrue(v, rules, existing, d, WebAccountAddress);
    PinStillTrue(v, rules, existing, d, KeyAdminAddress);
  }

  /** No field is both written and removed. */
  lemma WrittenIsNotCleared(v: Values, rules: Rules, existing: Config, f: Field)
    requires Accepts(v, rules)
    ensures Wanted(v, rules, f).Some? ==> !Cleared(v, rules, existing, f)
  {
  }

  lemma FlagsWarnTruly(v: Values, rules: Rules, existing: Config, envOwner: bool, d: Draft)
    requires Accepts(v, rules) && !Given(v.bundle) && !rules.validAddress("")
    requires d == Draft(Table(v, rules), FinalClear(v, rules, existing), [], FinalWarnings(v, rules, existing))
    ensures d.warnings == []
    ensures WarnsOfOwner(v, existing, envOwner, d) <==>
      ApiKey in d.updates && TextOf(MergedWith(existing, d), WebAccountAddress) == "" && !envOwner
  {
    TableIsFieldwise(v, rules, ApiKey);
    TableIsFieldwise(v, rules, WebAccountAddress);
    FinalClearIs(v, rules, existing, WebAccountAddress);
  }

  function FinalDraft(v: Values, rules: Rules, existing: Config): Draft
    requires DirsOk(v, rules)
  {
    Draft(Table(v, rules), FinalClear(v, rules, existing), [], FinalWarnings(v, rules, existing))
  }

  lemma EarlierPinIsThere(v: Values, rules: Rules, d: Draft)
    requires d.updates == FirstTable(v, rules) + WorkingTable(v, BundleOf(v, rules)) && !IsKind(BundleOf(v, rules), Admin)
    ensures PinIn(d.updates) == EarlierPin(v, BundleOf(v, rules))
  {
    var b := BundleOf(v, rules);
    FirstTableAt(v, rules, KeyAdminAddress);
    Overlay(FirstTable(v, rules), WorkingTable(v, b), KeyAdminAddress);
    WorkingTableAt(v, b, KeyAdminAddress);
  }

  /** The bundle or the address flags, then the working pair. */
  function FirstHalf(v: Values, rules: Rules, existing: Config): Draft {
    var b := BundleOf(v, rules);
    Draft(FirstTable(v, rules) + WorkingTable(v, b),
          FirstClear(v, rules) + (if Strands(v, b, existing) then [ServicePrivateKey] else []), [],
          if Given(v.bundle) then PinWarnings(FirstTable(v, rules), FirstClear(v, rules), existing) else [])
  }

  method FirstBlocks(v: Values, rules: Rules, existing: Config) returns (d: Draft)
    ensures d.errors == [] <==> FirstOk(v, rules) && WorkingOk(v, rules, BundleOf(v, rules))
    ensures d.errors == [] ==> d == FirstHalf(v, rules, existing)
  {
    d := FirstBlock(v, rules, existing);
    d := WorkingBlock(v, rules, BundleOf(v, rules), existing, d);
  }

  /** The management pair and the folders, on top of that. */
  method LastBlocks(v: Values, rules: Rules, existing: Config, first: Draft) returns (d: Draft)
    requires first.errors == [] ==> first == FirstHalf(v, rules, existing)
    ensures d.errors == [] <==> first.errors == [] && ManagementOk(v, rules, BundleOf(v, rules)) && DirsOk(v, rules)
    ensures d.errors == [] ==> d == FinalDraft(v, rules, existing)
  {
    var b := BundleOf(v, rules);
    if first.errors == [] && !IsKind(b, Admin) {
      EarlierPinIsThere(v, rules, first);
    }
    d := ManagementBlock(v, rules, b, first);
    if !ManagementAsked(v, b) {
      assert first.updates + ManagementTable(v, rules, b) == first.updates;
    }
    d := DirectoryBlock(v, rules, d);
  }

  /** The parts in the order the source runs them. */
  method Blocks(v: Values, rules: Rules, existing: Config) returns (d: Draft)
    requires AnythingGiven(v)
    ensures d.errors == [] <==> Accepts(v, rules)
    ensures d.errors == [] ==> d == FinalDraft(v, rules, existing)
  {
    d := FirstBlocks(v, rules, existing);
    d := LastBlocks(v, rules, existing, d);
  }

  lemma FinalDraftIsWrite(v: Values, rules: Rules, existing: Config, d: Draft)
    requires Accepts(v, rules)
    requires d.updates == Table(v, rules) && d.clear == FinalClear(v, rules, existing)
    ensures IsWrite(v, rules, existing, d)
  {
    forall f: Field
      ensures Gives(d.updates, f, Wanted(v, rules, f)) && (f in d.clear <==> Cleared(v, rules, existing, f))
    {
      TableIsFieldwise(v, rules, f);
      FinalClearIs(v, rules, existing, f);
    }
  }

  lemma FinalDraftWarns(v: Values, rules: Rules, existing: Config, envOwner: bool, d: Draft)
    requires Accepts(v, rules) && !rules.validAddress("") && d == FinalDraft(v, rules, existing)
    ensures WarnsTruly(v, existing, envOwner, if WarnsOfOwner(v, existing, envOwner, d) then d.(warnings := d.warnings + [NoOwnerPin]) else d)
  {
    if Given(v.bundle) {
      BundleWarnsTruly(v, rules, existing, d);
    } else {
      FlagsWarnTruly(v, rules, existing, envOwner, d);
    }
  }

  /** `validateSilent`. */
  method ValidateSilent(v: Values, rules: Rules, existing: Config, envOwner: bool) returns (d: Draft)
    requires !rules.validAddress("")
    ensures d.errors == [] <==> Accepts(v, rules)
    ensures d.errors != [] ==> d.updates == map[] && d.clear == [] && d.warnings == []
    ensures d.errors == [] ==> IsWrite(v, rules, existing, d) && WarnsTruly(v, existing, envOwner, d)
  {
    if !AnythingGiven(v) {
      return Fail(EMPTY_DRAFT, NoCredentials);
    }
    d := Blocks(v, rules, existing);
    if d.errors != [] {
      return EMPTY_DRAFT.(errors := d.errors);
    }
    FinalDraftWarns(v, rules, existing, envOwner, d);
    if WarnsOfOwner(v, existing, envOwner, d) {
      d := d.(warnings := d.warnings + [NoOwnerPin]);
    }
    FinalDraftIsWrite(v, rules, existing, d);
  }

  // ---- What every accepted write has in common --------------------------------------------------------------------

  /**
   * For every combination of flags, bundle, saved record and answers of the Console: nothing is
   * both written and removed; an admin signer never goes without its key and the pin it derives,
   * and any other pin named agrees with that one; no key is written that the Console did not accept.
   */
  lemma SilentWritesAreCoherent(v: Values, rules: Rules, existing: Config, d: Draft)
    requires Accepts(v, rules) && IsWrite(v, rules, existing, d)
    ensures forall f :: f in d.updates ==> f !in d.clear
    ensures AdminServicePrivateKey in d.updates <==> AdminKey in d.updates
    ensures AdminServicePrivateKey in d.updates ==>
      && d.updates[AdminServicePrivateKey].Str? && KeyAdminAddress in d.updates
      && d.updates[KeyAdminAddress] == Str(rules.derive(d.updates[AdminServicePrivateKey].s))
    ensures AdminServicePrivateKey in d.updates ==>
      var pin := OrElse(EarlierPin(v, BundleOf(v, rules)), v.keyAdminAddress);
      pin.Some? ==> rules.normalize(pin.value) == rules.normalize(rules.derive(d.updates[AdminServicePrivateKey].s))
    ensures ApiKey in d.updates ==> d.updates[ApiKey].Str? && rules.probe(Api, d.updates[ApiKey].s)
    ensures AdminKey in d.updates ==> d.updates[AdminKey].Str? && rules.probe(Admin, d.updates[AdminKey].s)
  {
    forall f: Field
      ensures f in d.updates ==> f !in d.clear
    {
      assert Gives(d.updates, f, Wanted(v, rules, f));
      WrittenIsNotCleared(v, rules, existing, f);
    }
    assert Gives(d.updates, AdminServicePrivateKey, Wanted(v, rules, AdminServicePrivateKey));
    assert Gives(d.updates, AdminKey, Wanted(v, rules, AdminKey));
    assert Gives(d.updates, KeyAdminAddress, Wanted(v, rules, KeyAdminAddress));
    assert Gives(d.updates, ApiKey, Wanted(v, rules, ApiKey));
  }

  /** Any saved record, merged with what a bundle writes and removes. */
  function WithBundle(rules: Rules, b: Bundle, owner: Option<string>, existing: Config): Config {
    MergedWith(existing, Draft(BundleUpdates(rules, b, owner), BundleClear(b), [], []))
  }

  predicate Same(a: Config, b: Config, f: Field) {
    At(a, f) == At(b, f)
  }

  ghost predicate PinsDecided(b: Bundle, existing: Config, merged: Config) {
    && At(merged, ApiKey) == Some(Str(b.key)) && At(merged, ServicePrivateKey) == Some(Str(b.signer))
    && At(merged, WebAccountAddress) == Address(b.owner) && At(merged, KeyAdminAddress) == Address(b.keyAdmin)
    && forall f :: f in {AdminKey, AdminServicePrivateKey, BaseUrl, AllowedDirs} ==> Same(merged, existing, f)
  }

  function WithApiBundleAt(rules: Rules, b: Bundle, owner: Option<string>, existing: Config, f: Field): Option<Value> {
    if f == WebAccountAddress || f == KeyAdminAddress then BundleAt(rules, b, owner, f)
    else Over(At(existing, f), BundleAt(rules, b, owner, f))
  }

  lemma PinsDecidedBy(rules: Rules, b: Bundle, owner: Option<string>, existing: Config, merged: Config)
    requires b.kind == Api
    requires forall f :: At(merged, f) == WithApiBundleAt(rules, b, owner, existing, f)
    ensures PinsDecided(b, existing, merged)
  {
  }

  /** A working bundle decides both pins: one it does not carry is gone, whatever was saved. */
  lemma WorkingBundleDecidesPins(rules: Rules, b: Bundle, owner: Option<string>, existing: Config)
    requires b.kind == Api
    ensures PinsDecided(b, existing, WithBundle(rules, b, owner, existing))
  {
    var merged := WithBundle(rules, b, owner, existing);
    forall f: Field
      ensures At(merged, f) == WithApiBundleAt(rules, b, owner, existing, f)
    {
      BundleMergedAt(rules, b, owner, existing, f);
    }
    PinsDecidedBy(rules, b, owner, existing, merged);
  }

  /**
   * A management bundle removes nothing: an owner it does not carry comes from the flag, or else
   * stays as it was saved, and so does a working pair.
   */
  lemma ManagementBundleRemovesNothing(rules: Rules, b: Bundle, owner: Option<string>, existing: Config)
    requires b.kind == Admin
    ensures var merged := WithBundle(rules, b, owner, existing);
      && existing.Keys <= merged.Keys
      && At(merged, AdminKey) == Some(Str(b.key)) && At(merged, AdminServicePrivateKey) == Some(Str(b.signer))
      && (b.owner.Some? ==> At(merged, WebAccountAddress) == Address(b.owner))
      && (b.owner.None? && owner.Some? ==> At(merged, WebAccountAddress) == Some(Str(rules.normalize(owner.value))))
      && (b.owner.None? && owner.None? ==> Same(merged, existing, WebAccountAddress))
      && forall f :: f in {ApiKey, ServicePrivateKey, BaseUrl, AllowedDirs} ==> Same(merged, existing, f)
  {
    forall f: Field
      ensures At(WithBundle(rules, b, owner, existing), f) == Over(At(existing, f), BundleAt(rules, b, owner, f))
    {
      BundleMergedAt(rules, b, owner, existing, f);
    }
  }

  /** The value a bundle gives a field, if it gives it one. */
  function BundleAt(rules: Rules, b: Bundle, owner: Option<string>, f: Field): Option<Value> {
    match f
    case ApiKey => if b.kind == Api then Some(Str(b.key)) else None
    case ServicePrivateKey => if b.kind == Api then Some(Str(b.signer)) else None
    case AdminKey => if b.kind == Admin then Some(Str(b.key)) else None
    case AdminServicePrivateKey => if b.kind == Admin then Some(Str(b.signer)) else None
    case KeyAdminAddress => Address(b.keyAdmin)
    case WebAccountAddress =>
      if b.owner.None? && b.kind == Admin && owner.Some? then Some(Str(rules.normalize(owner.value))) else Address(b.owner)
    case _ => None
  }

  lemma BundleMergedAt(rules: Rules, b: Bundle, owner: Option<string>, existing: Config, f: Field)
    ensures At(WithBundle(rules, b, owner, existing), f) ==
      if b.kind == Api && (f == WebAccountAddress || f == KeyAdminAddress) then BundleAt(rules, b, owner, f)
      else Over(At(existing, f), BundleAt(rules, b, owner, f))
  {
    MergedAt(existing, Draft(BundleUpdates(rules, b, owner), BundleClear(b), [], []), f);
    BundleUpdatesAt(rules, b, owner, f);
    BundleClearIs(b, f);
  }

  lemma BundleClearIs(b: Bundle, f: Field)
    ensures f in BundleClear(b) <==> b.kind == Api && ((f == WebAccountAddress && b.owner.None?) || (f == KeyAdminAddress && b.keyAdmin.None?))
  {
  }

  lemma MergedAt(existing: Config, d: Draft, f: Field)
    ensures At(MergedWith(existing, d), f) == if f in d.clear then None else Over(At(existing, f), At(d.updates, f))
  {
  }

  /**
   * Rotation: a write that carries an admin signer leaves a record whose pin is the one that signer
   * derives, whatever pin, key or signer was saved before; a write that carries none leaves the
   * saved pair alone.
   */
  lemma RotationReplacesThePin(v: Values, rules: Rules, existing: Config, d: Draft)
    requires Accepts(v, rules) && IsWrite(v, rules, existing, d)
    ensures var merged := MergedWith(existing, d);
      if AdminServicePrivateKey in d.updates then
        && At(merged, AdminKey) == At(d.updates, AdminKey) && AdminKey in d.updates
        && At(merged, AdminServicePrivateKey) == At(d.updates, AdminServicePrivateKey)
        && d.updates[AdminServicePrivateKey].Str?
        && At(merged, KeyAdminAddress) == Some(Str(rules.derive(d.updates[AdminServicePrivateKey].s)))
      else
        && At(merged, AdminKey) == At(existing, AdminKey)
        && At(merged, AdminServicePrivateKey) == At(existing, AdminServicePrivateKey)
  {
    SilentWritesAreCoherent(v, rules, existing, d);
    MergedAt(existing, d, AdminKey);
    MergedAt(existing, d, AdminServicePrivateKey);
    MergedAt(existing, d, KeyAdminAddress);
    assert AdminKey in d.clear <==> Cleared(v, rules, existing, AdminKey);
    assert AdminServicePrivateKey in d.clear <==> Cleared(v, rules, existing, AdminServicePrivateKey);
  }

  // ---- What is accepted and written, flag by flag -------------------------------------------------------------

  predicate NonEmpty(s: Option<string>) {
    s.Some? && s.value != ""
  }

  /** Every folder named once, in the order in which they were first named. */
  lemma {:induction false} DedupKeepsEachOnce(dirs: seq<string>)
    ensures forall d :: d in Dedup(dirs) <==> d in dirs
    ensures forall i, j :: 0 <= i < j < |Dedup(dirs)| ==> Dedup(dirs)[i] != Dedup(dirs)[j] && NamedBefore(dirs, Dedup(dirs)[i], Dedup(dirs)[j])
  {
    if dirs != [] {
      var before, last := dirs[..|dirs| - 1], dirs[|dirs| - 1];
      DedupKeepsEachOnce(before);
      assert dirs == before + [last];
      forall i, j | 0 <= i < j < |Dedup(dirs)|
        ensures Dedup(dirs)[i] != Dedup(dirs)[j] && NamedBefore(dirs, Dedup(dirs)[i], Dedup(dirs)[j])
      {
        if j < |Dedup(before)| {
          NamedBeforeStays(before, dirs, Dedup(before)[i], Dedup(before)[j]);
        } else {
          assert Dedup(dirs)[i] in before && dirs[..|before|] == before;
        }
      }
    }
  }

  /** Up to some point the one folder was named and the other was not. */
  ghost predicate NamedBefore(dirs: seq<string>, first: string, second: string) {
    exists m :: 0 <= m <= |dirs| && first in dirs[..m] && second !in dirs[..m]
  }

  lemma NamedBeforeStays(before: seq<string>, dirs: seq<string>, first: string, second: string)
    requires before <= dirs && NamedBefore(before, first, second)
    ensures NamedBefore(dirs, first, second)
  {
    var m :| 0 <= m <= |before| && first in before[..m] && second !in before[..m];
    assert dirs[..m] == before[..m];
  }

  /** A working pair from flags: what is given is well-formed, and the Console takes the key. */
  predicate WorkingFlagsOk(v: Values, rules: Rules) {
    && (NonEmpty(v.apiKey) ==> rules.keyFormat(Api, v.apiKey.value) && rules.probe(Api, v.apiKey.value))
    && (NonEmpty(v.serviceKey) ==> rules.validSigner(v.serviceKey.value))
  }

  /** A management pair from flags: both halves or neither, and any pin named is the one the signer derives. */
  predicate ManagementFlagsOk(v: Values, rules: Rules, pin: Option<string>) {
    NonEmpty(v.adminKey) || NonEmpty(v.adminSigner) ==>
      && NonEmpty(v.adminKey) && rules.keyFormat(Admin, v.adminKey.value) && rules.probe(Admin, v.adminKey.value)
      && NonEmpty(v.adminSigner) && rules.validSigner(v.adminSigner.value)
      && (pin.Some? ==> rules.normalize(pin.value) == rules.normalize(rules.derive(v.adminSigner.value)))
  }

  predicate AddressesAndFoldersOk(v: Values, rules: Rules) {
    && (v.ownerAddress.Some? ==> rules.validAddress(v.ownerAddress.value))
    && (v.keyAdminAddress.Some? ==> rules.validAddress(v.keyAdminAddress.value))
    && (forall i :: 0 <= i < |v.allowedDirs| ==> rules.directory(v.allowedDirs[i]).Some?)
  }

  /** Without a bundle: something must be given, and everything that is given must be good. */
  lemma AcceptsFlags(v: Values, rules: Rules)
    requires !NonEmpty(v.bundle)
    ensures Accepts(v, rules) <==>
      && (NonEmpty(v.apiKey) || NonEmpty(v.serviceKey) || NonEmpty(v.adminKey) || NonEmpty(v.adminSigner)
          || NonEmpty(v.ownerAddress) || NonEmpty(v.keyAdminAddress) || v.allowedDirs != [])
      && AddressesAndFoldersOk(v, rules) && WorkingFlagsOk(v, rules) && ManagementFlagsOk(v, rules, v.keyAdminAddress)
  {
  }

  /** A flag beside a bundle names the address the bundle does, or one that a management bundle leaves open. */
  predicate Repeats(rules: Rules, b: Bundle, flag: Option<string>, bundled: Option<string>) {
    flag.None? || (bundled.Some? && rules.normalize(flag.value) == rules.normalize(bundled.value)) || (bundled.None? && b.kind == Admin)
  }

  /** With a bundle: it must parse, supply what no flag does, agree with every address given beside it, and be taken. */
  lemma AcceptsBundle(v: Values, rules: Rules)
    requires NonEmpty(v.bundle)
    ensures rules.parseBundle(v.bundle.value).None? ==> !Accepts(v, rules)
    ensures rules.parseBundle(v.bundle.value).Some? ==>
      var b := rules.parseBundle(v.bundle.value).value;
      Accepts(v, rules) <==>
        && AddressesAndFoldersOk(v, rules) && rules.probe(b.kind, b.key)
        && Repeats(rules, b, v.ownerAddress, b.owner) && Repeats(rules, b, v.keyAdminAddress, b.keyAdmin)
        && match b.kind
           case Api => !NonEmpty(v.apiKey) && !NonEmpty(v.serviceKey) && ManagementFlagsOk(v, rules, b.keyAdmin)
           case Admin =>
             && !NonEmpty(v.adminKey) && !NonEmpty(v.adminSigner) && WorkingFlagsOk(v, rules)
             && var pin := if b.keyAdmin.Some? then b.keyAdmin else v.keyAdminAddress;
                pin.Some? ==> rules.normalize(pin.value) == rules.normalize(rules.derive(b.signer))
  {
  }

  /** The field is written with this text if there is one, and otherwise not at all. */
  predicate WrittenAs(updates: Config, f: Field, text: Option<string>) {
    if text.Some? then f in updates && updates[f] == Str(text.value) else f !in updates
  }

  function IfNonEmpty(s: Option<string>): Option<string> {
    if NonEmpty(s) then s else None
  }

  /** Without a bundle every flag is written as it was given, a signer with the pin it derives, and only a stranded signer is removed. */
  lemma FlagsAreWritten(v: Values, rules: Rules, existing: Config, d: Draft)
    requires !NonEmpty(v.bundle) && Accepts(v, rules) && IsWrite(v, rules, existing, d)
    ensures WrittenAs(d.updates, ApiKey, IfNonEmpty(v.apiKey)) && WrittenAs(d.updates, ServicePrivateKey, IfNonEmpty(v.serviceKey))
    ensures WrittenAs(d.updates, AdminKey, IfNonEmpty(v.adminKey)) && WrittenAs(d.updates, AdminServicePrivateKey, IfNonEmpty(v.adminSigner))
    ensures WrittenAs(d.updates, WebAccountAddress, v.ownerAddress) && BaseUrl !in d.updates
    ensures WrittenAs(d.updates, KeyAdminAddress,
                      if NonEmpty(v.adminSigner) then Some(rules.derive(v.adminSigner.value)) else v.keyAdminAddress)
    ensures AllowedDirs in d.updates <==> v.allowedDirs != []
    ensures forall f :: f in d.clear <==>
      f == ServicePrivateKey && NonEmpty(v.apiKey) && !NonEmpty(v.serviceKey) && TextOf(existing, ServicePrivateKey) != ""
  {
    assert Gives(d.updates, ApiKey, Wanted(v, rules, ApiKey));
    assert Gives(d.updates, ServicePrivateKey, Wanted(v, rules, ServicePrivateKey));
    assert Gives(d.updates, AdminKey, Wanted(v, rules, AdminKey));
    assert Gives(d.updates, AdminServicePrivateKey, Wanted(v, rules, AdminServicePrivateKey));
    assert Gives(d.updates, WebAccountAddress, Wanted(v, rules, WebAccountAddress));
    assert Gives(d.updates, KeyAdminAddress, Wanted(v, rules, KeyAdminAddress));
    assert Gives(d.updates, BaseUrl, Wanted(v, rules, BaseUrl)) && Gives(d.updates, AllowedDirs, Wanted(v, rules, AllowedDirs));
    forall f: Field
      ensures f in d.clear <==> Cleared(v, rules, existing, f)
    {
      assert Gives(d.updates, f, Wanted(v, rules, f));
    }
  }

  lemma {:induction false} DirectoriesAre(rules: Rules, raw: seq<string>)
    requires forall i :: 0 <= i < |raw| ==> rules.directory(raw[i]).Some?
    ensures |Directories(rules, raw)| == |raw|
    ensures forall i :: 0 <= i < |raw| ==> rules.directory(raw[i]) == Some(Directories(rules, raw)[i])
  {
    if raw != [] {
      DirectoriesAre(rules, raw[..|raw| - 1]);
    }
  }

  /** The folders written: each of those given, made canonical, once and in order. */
  lemma FoldersAreWritten(v: Values, rules: Rules, existing: Config, d: Draft)
    requires Accepts(v, rules) && IsWrite(v, rules, existing, d) && v.allowedDirs != []
    ensures AllowedDirs in d.updates && d.updates[AllowedDirs].Dirs?
    ensures forall dir :: dir in d.updates[AllowedDirs].dirs <==>
      exists i :: 0 <= i < |v.allowedDirs| && rules.directory(v.allowedDirs[i]) == Some(dir)
    ensures forall i, j :: 0 <= i < j < |d.updates[AllowedDirs].dirs| ==> d.updates[AllowedDirs].dirs[i] != d.updates[AllowedDirs].dirs[j]
  {
    assert Gives(d.updates, AllowedDirs, Wanted(v, rules, AllowedDirs));
    var dirs := Directories(rules, v.allowedDirs);
    DedupKeepsEachOnce(dirs);
    DirectoriesAre(rules, v.allowedDirs);
    forall dir
      ensures dir in dirs <==> exists i :: 0 <= i < |v.allowedDirs| && rules.directory(v.allowedDirs[i]) == Some(dir)
    {
      if i :| 0 <= i < |v.allowedDirs| && rules.directory(v.allowedDirs[i]) == Some(dir) {
        assert dirs[i] == dir;
      }
      if dir in dirs {
        var i :| 0 <= i < |dirs| && dirs[i] == dir;
        assert rules.directory(v.allowedDirs[i]) == Some(dir);
      }
    }
  }

  /** With a bundle its pair is written, and the other kind's flags as they were given. */
  lemma BundleIsWritten(v: Values, rules: Rules, b: Bundle, existing: Config, d: Draft)
    requires NonEmpty(v.bundle) && rules.parseBundle(v.bundle.value) == Some(b)
    requires Accepts(v, rules) && IsWrite(v, rules, existing, d)
    ensures b.kind == Api ==>
      && WrittenAs(d.updates, ApiKey, Some(b.key)) && WrittenAs(d.updates, ServicePrivateKey, Some(b.signer))
      && WrittenAs(d.updates, AdminKey, IfNonEmpty(v.adminKey)) && WrittenAs(d.updates, AdminServicePrivateKey, IfNonEmpty(v.adminSigner))
      && WrittenAs(d.updates, WebAccountAddress, b.owner) && (b.owner.None? <==> WebAccountAddress in d.clear)
      && WrittenAs(d.updates, KeyAdminAddress, if NonEmpty(v.adminSigner) then Some(rules.derive(v.adminSigner.value)) else b.keyAdmin)
      && (KeyAdminAddress in d.clear <==> b.keyAdmin.None? && !NonEmpty(v.adminSigner))
    ensures b.kind == Admin ==>
      && WrittenAs(d.updates, AdminKey, Some(b.key)) && WrittenAs(d.updates, AdminServicePrivateKey, Some(b.signer))
      && WrittenAs(d.updates, ApiKey, IfNonEmpty(v.apiKey)) && WrittenAs(d.updates, ServicePrivateKey, IfNonEmpty(v.serviceKey))
      && WrittenAs(d.updates, KeyAdminAddress, Some(rules.derive(b.signer)))
      && WrittenAs(d.updates, WebAccountAddress,
                   if b.owner.Some? then b.owner else if v.ownerAddress.Some? then Some(rules.normalize(v.ownerAddress.value)) else None)
  {
    assert Gives(d.updates, ApiKey, Wanted(v, rules, ApiKey));
    assert Gives(d.updates, ServicePrivateKey, Wanted(v, rules, ServicePrivateKey));
    assert Gives(d.updates, AdminKey, Wanted(v, rules, AdminKey));
    assert Gives(d.updates, AdminServicePrivateKey, Wanted(v, rules, AdminServicePrivateKey));
    assert Gives(d.updates, WebAccountAddress, Wanted(v, rules, WebAccountAddress));
    assert Gives(d.updates, KeyAdminAddress, Wanted(v, rules, KeyAdminAddress));
    assert WebAccountAddress in d.clear <==> Cleared(v, rules, existing, WebAccountAddress);
    assert KeyAdminAddress in d.clear <==> Cleared(v, rules, existing, KeyAdminAddress);
  }
}
