/**
 * `configFile.ts` in its own form: a config object edited in place, and a directory whose two
 * files are written one after the other. Each method is proved against ConfigRecord's functions.
 */
module ConfigFile {
  import opened Text
  import opened ConfigRecord
  import opened ConfigSave

  datatype MergeResult = Written(merged: Config) | NotWritten(before: Config) | Threw

  /** A `ConfigFileData` object while it is being filled in. */
  class ConfigObject {
    var fields: Config

    constructor (c: Config)
      ensures fields == c
    {
      fields := c;
    }

    method Assign(f: Field, v: Value)
      modifies this
      ensures fields == old(fields)[f := v]
    {
      fields := fields[f := v];
    }

    method Delete(f: Field)
      modifies this
      ensures fields == old(fields) - {f}
    {
      fields := fields - {f};
    }

    /** One field of the stale-duplicate branch: admin.json's value, or nothing. */
    method Replace(f: Field, admin: AdminOnDisk)
      modifies this
      ensures fields == if f in admin.pair then old(fields)[f := admin.pair[f]] else old(fields) - {f}
    {
      if f in admin.pair {
        Assign(f, admin.pair[f]);
      } else {
        Delete(f);
      }
    }

    method ApplyAdminFile(admin: AdminOnDisk)
      requires admin.pair.Keys <= ADMIN_FIELDS
      modifies this
      ensures fields == Applied(old(fields), admin)
    {
      var inlineDigest := DigestAdminPair(fields);
      if inlineDigest.Some? && inlineDigest == admin.supersedes {
        Replace(AdminKey, admin);
        Replace(AdminServicePrivateKey, admin);
        return;
      }
      if AdminKey !in fields && AdminKey in admin.pair {
        Assign(AdminKey, admin.pair[AdminKey]);
      }
      if AdminServicePrivateKey !in fields && AdminServicePrivateKey in admin.pair {
        Assign(AdminServicePrivateKey, admin.pair[AdminServicePrivateKey]);
      }
    }

    /** `for (const key of clear) delete merged[key]` */
    method DeleteAll(clear: seq<Field>)
      modifies this
      ensures fields == old(fields) - FieldSet(clear)
    {
      for i := 0 to |clear|
        invariant fields == old(fields) - FieldSet(clear[..i])
      {
        Delete(clear[i]);
        assert FieldSet(clear[..i + 1]) == FieldSet(clear[..i]) + {clear[i]};
      }
      assert clear[..|clear|] == clear;
    }
  }

  class ConfigDir {
    const pol: Policy
    var config: File
    var admin: File

    ghost function Files(): Disk
      reads this
    {
      Disk(config, admin)
    }

    constructor (pol: Policy, d: Disk)
      ensures this.pol == pol && Files() == d
    {
      this.pol, config, admin := pol, d.config, d.admin;
    }

    /** `loadConfigFile` */
    method LoadConfigFile() returns (r: Result<Config>)
      ensures r == Resolve(pol, Files())
      ensures r.Err? <==> config.Corrupt? || admin.Corrupt?
      ensures config.Missing? && admin.Missing? ==> r == Ok(map[])
    {
      UnreadableIsLoud(pol, Files());
      var parsed := ReadObject(config);
      if parsed.Err? {
        return Err;
      }
      var adminObj := ReadObject(admin);
      if adminObj.Err? {
        return Err;
      }
      var c := new ConfigObject(ParseFields(pol, parsed.value.fields));
      c.ApplyAdminFile(ParseAdmin(pol, adminObj.value));
      r := Ok(c.fields);
    }

    /** The halves of the pair that admin.json names as strings now; nothing if it cannot be read. */
    function BestEffortCurrentAdminPair(): (pair: Config)
      reads this
      ensures forall f :: f in pair <==>
        && admin.Object? && (f == AdminKey || f == AdminServicePrivateKey)
        && f in admin.obj.fields && admin.obj.fields[f].JStr?
      ensures forall f :: f in pair ==> pair[f] == Str(admin.obj.fields[f].s)
    {
      if admin.Object? then ParseAdmin(pol, admin.obj).pair else map[]
    }

    /**
     * The three ordered writes. The process is killed, or a write throws, once `survives` of them
     * are on disk.
     */
    method SaveConfigFile(data: Config, supersededPair: Option<Config>, survives: nat) returns (ok: bool)
      modifies this
      ensures ok <==> survives >= 3
      ensures var superseded := if supersededPair.Some? then supersededPair.value else old(BestEffortCurrentAdminPair());
        Files() == Saved(old(Files()), data, superseded, if survives < 3 then survives else 3)
      ensures ok ==> config.Object? && config.obj.supersedes.None? && config.obj.fields.Keys == data.Keys - {AdminKey, AdminServicePrivateKey}
      ensures ok && admin.Object? && old(admin) != admin ==>
        admin.obj.supersedes.None? && admin.obj.fields.Keys == data.Keys * {AdminKey, AdminServicePrivateKey}
      ensures old(admin).Missing? && AdminKey !in data && AdminServicePrivateKey !in data ==> admin.Missing?
    {
      var adminPair := Restrict(data, ADMIN_FIELDS);
      var priorPair := if supersededPair.Some? then supersededPair.value else BestEffortCurrentAdminPair();
      var supersedes := DigestAdminPair(priorPair);
      if survives == 0 {
        return false;
      }
      if adminPair != map[] || admin != Missing {
        admin := Object(AdminObject(data, supersedes));
      }
      if survives == 1 {
        return false;
      }
      config := Object(Obj(Print(data - ADMIN_FIELDS), None));
      if survives == 2 {
        return false;
      }
      if supersedes.Some? && admin != Missing {
        admin := Object(AdminObject(data, None));
      }
      ok := true;
    }

    /** The body of `mergeConfigFileIf`, inside its lock. */
    method MergeConfigFileIf(m: Merge, survives: nat) returns (r: MergeResult)
      modifies this
      ensures old(config.Corrupt? || admin.Corrupt?) ==> r == Threw && config == old(config) && admin == old(admin)
      ensures r == Threw ==> old(config.Corrupt? || admin.Corrupt?) || survives < 3
      ensures match Resolve(pol, old(Files()))
        case Err => r == Threw && Files() == old(Files())
        case Ok(before) =>
          if !m.decide(before) then r == NotWritten(before) && Files() == old(Files())
          else
            && Files() == Saved(old(Files()), Merged(m, before), Inline(pol, old(Files())), if survives < 3 then survives else 3)
            && r == if survives >= 3 then Written(Merged(m, before)) else Threw
    {
      var parsed := ReadObject(config);
      if parsed.Err? {
        return Threw;
      }
      var inl := ParseFields(pol, parsed.value.fields);
      var adminObj := ReadObject(admin);
      if adminObj.Err? {
        return Threw;
      }
      var before := new ConfigObject(inl);
      before.ApplyAdminFile(ParseAdmin(pol, adminObj.value));
      if !m.decide(before.fields) {
        return NotWritten(before.fields);
      }
      r := SaveMerged(m, inl, before.fields, survives);
    }

    /** The writing half: updates laid over what was read, cleared fields deleted, and the save. */
    method SaveMerged(m: Merge, inl: Config, before: Config, survives: nat) returns (r: MergeResult)
      modifies this
      ensures Files() == Saved(old(Files()), Merged(m, before), inl, if survives < 3 then survives else 3)
      ensures r == if survives >= 3 then Written(Merged(m, before)) else Threw
    {
      var merged := new ConfigObject(before + m.updates);
      merged.DeleteAll(m.clear);
      var ok := SaveConfigFile(merged.fields, Some(Restrict(inl, ADMIN_FIELDS)), survives);
      DigestOfPair(inl);
      r := if ok then Written(merged.fields) else Threw;
    }

    /** A completed merge is what every later reader resolves; nothing of the old pair stays inline. */
    method MergeThenLoad(m: Merge) returns (r: Result<Config>)
      requires Resolve(pol, Files()).Ok? && m.decide(Resolve(pol, Files()).value)
      modifies this
      ensures r == Ok(Outcome(pol, m, Resolve(pol, old(Files())).value))
      ensures PairOf(Inline(pol, Files())) == map[] && Marker(pol, Files()).None?
    {
      ghost var d := Files();
      ghost var data := Merged(m, Resolve(pol, d).value);
      var _ := MergeConfigFileIf(m, 3);
      AfterBothWrites(pol, d, data, 3);
      r := LoadConfigFile();
    }
  }

  lemma DigestOfPair(c: Config)
    ensures DigestAdminPair(Restrict(c, ADMIN_FIELDS)) == DigestAdminPair(c)
  {
  }
}
