/**
 * The saved configuration of `configFile.ts` as values: one logical record split over
 * `config.json` and `admin.json`, what a reader resolves it to, and what each of the three
 * file writes of a save does to that.
 */
module ConfigRecord {
  import opened Text

  datatype Field = ApiKey | ServicePrivateKey | AdminKey | AdminServicePrivateKey
    | BaseUrl | WebAccountAddress | KeyAdminAddress | AllowedDirs

  datatype Value = Str(s: string) | Dirs(dirs: seq<string>)

  type Config = map<Field, Value>

  /** The pair that lives in `admin.json`. */
  const ADMIN_FIELDS: set<Field> := {AdminKey, AdminServicePrivateKey}

  datatype Json = JStr(s: string) | JArr(items: seq<Json>) | JOther

  /** The keys of the two JSON objects that this program reads back. */
  datatype Obj = Obj(fields: map<Field, Json>, supersedes: Option<Json>)

  const EMPTY: Obj := Obj(map[], None)

  /** A file: absent, present but not a readable JSON object, or a JSON object. */
  datatype File = Missing | Corrupt | Object(obj: Obj)

  datatype Disk = Disk(config: File, admin: File)

  /** The two validators this model does not look inside: `isAllowedBaseUrl` and `isValidSuiAddress`. */
  datatype Policy = Policy(allowedUrl: string -> bool, validAddress: string -> bool)

  function Restrict(c: Config, fs: set<Field>): (r: Config)
    ensures r.Keys == c.Keys * fs && forall f :: f in r ==> r[f] == c[f]
  {
    map f | f in c && f in fs :: c[f]
  }

  // ---- Reading ---------------------------------------------------------------------------------

  /** The usable entries of a saved folder list: strings, trimmed, blanks dropped. */
  function CleanDirs(items: seq<Json>): seq<string> {
    if items == [] then []
    else
      var rest := CleanDirs(items[1..]);
      if items[0].JStr? && Trim(items[0].s) != "" then [Trim(items[0].s)] + rest else rest
  }

  function ParseField(pol: Policy, f: Field, j: Json): Option<Value> {
    match f
    case ApiKey | ServicePrivateKey | AdminKey | AdminServicePrivateKey =>
      if j.JStr? then Some(Str(j.s)) else None
    case BaseUrl => if j.JStr? && pol.allowedUrl(j.s) then Some(Str(j.s)) else None
    case WebAccountAddress | KeyAdminAddress => if j.JStr? && pol.validAddress(j.s) then Some(Str(j.s)) else None
    case AllowedDirs => if j.JArr? && CleanDirs(j.items) != [] then Some(Dirs(CleanDirs(j.items))) else None
  }

  function ParseFields(pol: Policy, fields: map<Field, Json>): Config {
    map f | f in fields && ParseField(pol, f, fields[f]).Some? :: ParseField(pol, f, fields[f]).value
  }

  /** `readJsonFileOrThrow`: only a missing file reads as empty. */
  function ReadObject(file: File): Result<Obj> {
    match file
    case Missing => Ok(EMPTY)
    case Corrupt => Err
    case Object(obj) => Ok(obj)
  }

  datatype AdminOnDisk = AdminOnDisk(pair: Config, supersedes: Option<string>)

  function ParseAdmin(pol: Policy, obj: Obj): AdminOnDisk {
    AdminOnDisk(Restrict(ParseFields(pol, obj.fields), ADMIN_FIELDS),
                if obj.supersedes.Some? && obj.supersedes.value.JStr? then Some(obj.supersedes.value.s) else None)
  }

  function TextOf(c: Config, f: Field): string {
    if f in c && c[f].Str? then c[f].s else ""
  }

  /**
   * The digest of a Key-Admin pair. SHA-256 is taken as collision-free, so a digest is named by
   * the text that was hashed.
   */
  function DigestAdminPair(c: Config): Option<string> {
    if AdminKey !in c && AdminServicePrivateKey !in c then None
    else Some(TextOf(c, AdminKey) + "\n" + TextOf(c, AdminServicePrivateKey))
  }

  /** What `applyAdminFile` leaves in `config`. */
  function Applied(config: Config, admin: AdminOnDisk): Config {
    var inlineDigest := DigestAdminPair(config);
    if inlineDigest.Some? && inlineDigest == admin.supersedes then (config - ADMIN_FIELDS) + admin.pair
    else admin.pair + config
  }

  /** `loadConfigFile`: the record both files together stand for, or a loud failure. */
  function Resolve(pol: Policy, d: Disk): Result<Config> {
    match (ReadObject(d.config), ReadObject(d.admin))
    case (Ok(c), Ok(a)) => Ok(Applied(ParseFields(pol, c.fields), ParseAdmin(pol, a)))
    case _ => Err
  }

  /** The admin fields `config.json` itself still carries, beside everything else it carries. */
  function Inline(pol: Policy, d: Disk): Config {
    match ReadObject(d.config) case Ok(c) => ParseFields(pol, c.fields) case Err => map[]
  }

  // ---- Writing ---------------------------------------------------------------------------------

  function ToJson(v: Value): Json {
    match v
    case Str(s) => JStr(s)
    case Dirs(ds) => JArr(JStrings(ds))
  }

  function JStrings(ds: seq<string>): seq<Json> {
    if ds == [] then [] else [JStr(ds[0])] + JStrings(ds[1..])
  }

  function Print(c: Config): map<Field, Json> {
    map f | f in c :: ToJson(c[f])
  }

  function AdminObject(c: Config, supersedes: Option<string>): Obj {
    Obj(Print(Restrict(c, ADMIN_FIELDS)), if supersedes.Some? then Some(JStr(supersedes.value)) else None)
  }

  /** The three writes of `saveConfigFile(data, superseded)`, in order. */
  function WriteAdmin(d: Disk, data: Config, superseded: Config): Disk {
    if Restrict(data, ADMIN_FIELDS) != map[] || d.admin != Missing
    then d.(admin := Object(AdminObject(data, DigestAdminPair(superseded))))
    else d
  }

  function WriteConfig(d: Disk, data: Config): Disk {
    d.(config := Object(Obj(Print(data - ADMIN_FIELDS), None)))
  }

  function DropMarker(d: Disk, data: Config, superseded: Config): Disk {
    if DigestAdminPair(superseded).Some? && d.admin != Missing then d.(admin := Object(AdminObject(data, None))) else d
  }

  /** `d` after the first `k` writes of the save. */
  function Saved(d: Disk, data: Config, superseded: Config, k: nat): Disk {
    if k == 0 then d
    else if k == 1 then WriteAdmin(d, data, superseded)
    else if k == 2 then WriteConfig(WriteAdmin(d, data, superseded), data)
    else DropMarker(WriteConfig(WriteAdmin(d, data, superseded), data), data, superseded)
  }

  // ---- What survives a write and a read ----------------------------------------------------------

  /** The part of a record that a reader gives back after it was written. */
  function Storable(pol: Policy, c: Config): Config {
    map f | f in c && ParseField(pol, f, ToJson(c[f])).Some? :: ParseField(pol, f, ToJson(c[f])).value
  }

  predicate Clean(ds: seq<string>) {
    forall i :: 0 <= i < |ds| ==> ds[i] != "" && Trim(ds[i]) == ds[i]
  }

  lemma {:induction false} CleanDirsIsClean(items: seq<Json>)
    ensures Clean(CleanDirs(items))
  {
    if items != [] {
      CleanDirsIsClean(items[1..]);
      var rest := CleanDirs(items[1..]);
      if items[0].JStr? && Trim(items[0].s) != "" {
        TrimIdempotent(items[0].s);
        var all := [Trim(items[0].s)] + rest;
        assert CleanDirs(items) == all;
        assert forall i :: 0 < i < |all| ==> all[i] == rest[i - 1];
      }
    }
  }

  lemma {:induction false} CleanDirsKeepsClean(ds: seq<string>)
    requires Clean(ds)
    ensures CleanDirs(JStrings(ds)) == ds
  {
    if ds != [] {
      CleanDirsKeepsClean(ds[1..]);
      var items := JStrings(ds);
      assert items[0] == JStr(ds[0]) && items[1..] == JStrings(ds[1..]);
      assert Trim(ds[0]) == ds[0];
    }
  }

  lemma ParsedFieldIsStorable(pol: Policy, f: Field, j: Json)
    requires ParseField(pol, f, j).Some?
    ensures ParseField(pol, f, ToJson(ParseField(pol, f, j).value)) == ParseField(pol, f, j)
  {
    if f == AllowedDirs {
      CleanDirsIsClean(j.items);
      CleanDirsKeepsClean(CleanDirs(j.items));
    }
  }

  lemma PrintThenParse(pol: Policy, c: Config)
    ensures ParseFields(pol, Print(c)) == Storable(pol, c)
  {
  }

  lemma PrintThenParseAdmin(pol: Policy, c: Config, supersedes: Option<string>)
    ensures ParseAdmin(pol, AdminObject(c, supersedes)) == AdminOnDisk(Restrict(Storable(pol, c), ADMIN_FIELDS), supersedes)
  {
    var kept := Restrict(c, ADMIN_FIELDS);
    PrintThenParse(pol, kept);
    assert Restrict(Storable(pol, kept), ADMIN_FIELDS) == Restrict(Storable(pol, c), ADMIN_FIELDS);
  }

  lemma ParsedIsStorable(pol: Policy, fields: map<Field, Json>)
    ensures Storable(pol, ParseFields(pol, fields)) == ParseFields(pol, fields)
  {
    forall f | f in fields && ParseField(pol, f, fields[f]).Some?
      ensures ParseField(pol, f, ToJson(ParseFields(pol, fields)[f])) == ParseField(pol, f, fields[f])
    {
      ParsedFieldIsStorable(pol, f, fields[f]);
    }
  }

  /** Every entry of `c` comes from a record that reads back unchanged. */
  lemma StorableFrom(pol: Policy, c: Config, a: Config, b: Config)
    requires Storable(pol, a) == a && Storable(pol, b) == b
    requires forall f :: f in c ==> (f in a && c[f] == a[f]) || (f in b && c[f] == b[f])
    ensures Storable(pol, c) == c
  {
    forall f | f in c
      ensures ParseField(pol, f, ToJson(c[f])) == Some(c[f])
    {
      assert f in a && c[f] == a[f] ==> f in Storable(pol, a) && Storable(pol, a)[f] == a[f];
      assert f in b && c[f] == b[f] ==> f in Storable(pol, b) && Storable(pol, b)[f] == b[f];
    }
  }

  /** What a reader resolved can be written and read back unchanged. */
  lemma ResolvedIsStorable(pol: Policy, d: Disk)
    requires Resolve(pol, d).Ok?
    ensures Storable(pol, Resolve(pol, d).value) == Resolve(pol, d).value
  {
    var config, admin := ReadObject(d.config).value, ReadObject(d.admin).value;
    ParsedIsStorable(pol, config.fields);
    ParsedIsStorable(pol, admin.fields);
    StorableFrom(pol, Resolve(pol, d).value, ParseFields(pol, config.fields), ParseFields(pol, admin.fields));
  }

  // ---- What the files load as, value by value ------------------------------------------------------

  /** A damaged file is never taken for an empty one, and only a missing one is. */
  lemma UnreadableIsLoud(pol: Policy, d: Disk)
    ensures Resolve(pol, d).Err? <==> d.config.Corrupt? || d.admin.Corrupt?
    ensures d == Disk(Missing, Missing) ==> Resolve(pol, d) == Ok(map[])
  {
    if d == Disk(Missing, Missing) {
      var none: Config := map[];
      assert ParseFields(pol, EMPTY.fields) == none;
      assert Restrict(none, ADMIN_FIELDS) == none;
    }
  }

  /**
   * What a JSON value stands for: a string where a key belongs, an allowed URL, a valid address, a
   * list with something in it.
   */
  predicate StandsFor(pol: Policy, f: Field, j: Json, v: Value) {
    if f == AllowedDirs then j.JArr? && CleanDirs(j.items) != [] && v == Dirs(CleanDirs(j.items))
    else
      && j.JStr? && v == Str(j.s)
      && (f == BaseUrl ==> pol.allowedUrl(j.s))
      && (f == WebAccountAddress || f == KeyAdminAddress ==> pol.validAddress(j.s))
  }

  lemma ParsedIs(pol: Policy, fields: map<Field, Json>, f: Field, v: Value)
    ensures var c := ParseFields(pol, fields);
      f in c && c[f] == v <==> f in fields && StandsFor(pol, f, fields[f], v)
  {
  }

  /** With no admin.json, every field of config.json is read for what it stands for, and no other. */
  lemma ConfigAloneLoads(pol: Policy, obj: Obj, f: Field, v: Value)
    ensures var r := Resolve(pol, Disk(Object(obj), Missing));
      r.Ok? && (f in r.value && r.value[f] == v <==> f in obj.fields && StandsFor(pol, f, obj.fields[f], v))
  {
    var c := ParseFields(pol, obj.fields);
    var none: Config := map[];
    assert ParseFields(pol, EMPTY.fields) == none && Restrict(none, ADMIN_FIELDS) == none;
    assert ParseAdmin(pol, EMPTY) == AdminOnDisk(none, None);
    assert none + c == c;
    ParsedIs(pol, obj.fields, f, v);
  }

  /**
   * Beside a config.json that names no pair, admin.json gives the halves it names as strings and
   * nothing else, whatever else is in it.
   */
  lemma AdminFileGivesThePair(pol: Policy, config: Obj, admin: Obj, f: Field, v: Value)
    requires AdminKey !in config.fields && AdminServicePrivateKey !in config.fields
    ensures var r := Resolve(pol, Disk(Object(config), Object(admin)));
      && r.Ok?
      && (f in r.value && r.value[f] == v <==>
            if f == AdminKey || f == AdminServicePrivateKey
            then f in admin.fields && admin.fields[f].JStr? && v == Str(admin.fields[f].s)
            else f in config.fields && StandsFor(pol, f, config.fields[f], v))
  {
    ParsedIs(pol, config.fields, f, v);
    ParsedIs(pol, admin.fields, f, v);
    PairFillsIn(ParseFields(pol, config.fields), ParseAdmin(pol, admin), f, v);
  }

  /** Where config.json has no pair, admin.json's is the one that counts. */
  lemma PairFillsIn(c: Config, a: AdminOnDisk, f: Field, v: Value)
    requires AdminKey !in c && AdminServicePrivateKey !in c && a.pair.Keys <= ADMIN_FIELDS
    ensures var r := Applied(c, a);
      f in r && r[f] == v <==> if f in ADMIN_FIELDS then f in a.pair && a.pair[f] == v else f in c && c[f] == v
  {
  }

  /** A saved folder list is read entry by entry: strings trimmed, blank and other entries skipped. */
  lemma {:induction false} CleanDirsAppend(a: seq<Json>, b: seq<Json>)
    ensures CleanDirs(a + b) == CleanDirs(a) + CleanDirs(b)
  {
    if a == [] {
      assert a + b == b;
    } else {
      CleanDirsAppend(a[1..], b);
      assert (a + b)[1..] == a[1..] + b && (a + b)[0] == a[0];
    }
  }

  lemma CleanDirsOne(item: Json)
    ensures CleanDirs([item]) == if item.JStr? && Trim(item.s) != "" then [Trim(item.s)] else []
  {
    assert [item][1..] == [];
    assert CleanDirs([]) == [];
  }
}
