// The all-or-nothing export file, and the loader that accepts exactly what a
// committed export leaves behind.

module MigrationExport {
  import opened Wrappers
  import opened Text

  /** The desired resource of a bundle; None stands for an absent message. */
  datatype Desired = Desired(apiVersion: string, kind: string, name: Option<string>,
                           specFields: Option<nat>, hasStatus: bool)

  datatype Bundle = Bundle(version: int, resource: Option<Desired>, controllerId: string, identity: string,
                         digest: string)

  datatype Failure = CannotCreate | ExportFailed | Invalid | CannotEncode | CannotWrite | CannotSync | CannotClose
                   | CompletionFailed | CannotRead | Malformed
  type Reply<+T> = Result<T, Failure>

  /** The JSON mapping: encoding may fail, decoding rejects what it does not know. */
  datatype Codec = Codec(encode: Bundle -> Option<string>, decode: string -> Option<Bundle>)

  predicate IsHex(c: char) { '0' <= c <= '9' || 'a' <= c <= 'f' || 'A' <= c <= 'F' }

  /** A hex string that decodes to 32 bytes. */
  predicate IsSha256(s: string) { |s| == 64 && forall i :: 0 <= i < 64 ==> IsHex(s[i]) }

  // hex.DecodeString

  function HexValue(c: char): Option<nat> {
    if '0' <= c <= '9' then Some(c as nat - '0' as nat)
    else if 'a' <= c <= 'f' then Some(c as nat - 'a' as nat + 10)
    else if 'A' <= c <= 'F' then Some(c as nat - 'A' as nat + 10)
    else None
  }

  function HexDecode(s: string): Option<seq<nat>> {
    if s == "" then Some([])
    else if |s| == 1 then None
    else
      match (HexValue(s[0]), HexValue(s[1]), HexDecode(s[2..]))
      case (Some(hi), Some(lo), Some(rest)) => Some([16 * hi + lo] + rest)
      case _ => None
  }

  lemma {:induction false} HexDecodeIff(s: string)
    ensures HexDecode(s).Some? <==> |s| % 2 == 0 && forall i :: 0 <= i < |s| ==> IsHex(s[i])
    ensures HexDecode(s).Some? ==> 2 * |HexDecode(s).value| == |s|
    decreases |s|
  {
    if |s| > 1 {
      HexDecodeIff(s[2..]);
      assert s == [s[0], s[1]] + s[2..];
    }
  }

  /** A bundle the loader may let through: version 1; a desired resource with API version, kind, name and a spec that is
      not empty, and without status; a controller, an identity, and a digest that decodes to 32 bytes. */
  ghost predicate Acceptable(b: Bundle) {
    && b.version == 1
    && b.resource.Some?
    && !Blank(b.resource.value.apiVersion) && !Blank(b.resource.value.kind)
    && (match b.resource.value.name case Some(name) => !Blank(name) case None => false)
    && (match b.resource.value.specFields case Some(n) => n != 0 case None => false)
    && b.resource.value.hasStatus == false
    && !Blank(b.controllerId) && !Blank(b.identity)
    && (match HexDecode(b.digest) case Some(bytes) => |bytes| == 32 case None => false)
  }

  lemma ValidIff(b: Bundle)
    ensures ValidBundle(b) <==> Acceptable(b)
  {
    HexDecodeIff(b.digest);
    BlankIff(b.controllerId);
    BlankIff(b.identity);
    if b.resource.Some? {
      BlankIff(b.resource.value.apiVersion);
      BlankIff(b.resource.value.kind);
      if b.resource.value.name.Some? { BlankIff(b.resource.value.name.value); }
    }
  }

  predicate ValidBundle(b: Bundle) {
    && b.version == 1
    && b.resource.Some?
    && (var r := b.resource.value;
        && TrimSpace(r.apiVersion) != "" && TrimSpace(r.kind) != ""
        && r.name.Some? && TrimSpace(r.name.value) != ""
        && r.specFields.Some? && r.specFields.value > 0
        && !r.hasStatus)
    && TrimSpace(b.controllerId) != "" && TrimSpace(b.identity) != "" && IsSha256(b.digest)
  }

  /** validateMigrationBundle: a missing bundle is not valid. */
  method Validate(bundle: Option<Bundle>) returns (ok: bool)
    ensures ok <==> bundle.Some? && Acceptable(bundle.value)
  {
    if bundle.None? {
      return false;
    }
    ValidIff(bundle.value);
    return ValidBundle(bundle.value);
  }

  /** What each step of the export meets. `write` is how much of a failing write reached the file. */
  datatype Faults = Faults(create: bool, write: Option<nat>, sync: bool, close: bool, remove: bool)

  class FileSystem {
    var files: map<string, string>

    constructor (files: map<string, string>)
      ensures this.files == files
    {
      this.files := files;
    }

    method LoadMigrationBundle(path: string, c: Codec) returns (r: Reply<Bundle>)
      ensures path !in files ==> r == Err(CannotRead)
      ensures path in files && c.decode(files[path]).None? ==> r == Err(Malformed)
      ensures path in files && c.decode(files[path]).Some? ==>
                r == if Acceptable(c.decode(files[path]).value) then Ok(c.decode(files[path]).value) else Err(Invalid)
    {
      if path !in files {
        return Err(CannotRead);
      }
      var decoded := c.decode(files[path]);
      if decoded.None? {
        return Err(Malformed);
      }
      var valid := Validate(decoded);
      if !valid {
        return Err(Invalid);
      }
      return Ok(decoded.value);
    }

    /** `bundle` is what the export callback returns (None: it failed; Some(None): no bundle); `completed` is the last
        callback's success. Whatever step fails before the file is closed, the path ends up as it was,
        if removal works. */
    method WriteMigrationExport(path: string, bundle: Option<Option<Bundle>>, c: Codec, f: Faults, completed: bool)
      returns (r: Reply<()>, committed: bool)
      modifies this
      ensures forall p :: p != path ==> (p in files <==> p in old(files)) && (p in files ==> files[p] == old(files)[p])
      ensures path in old(files) ==> r == Err(CannotCreate) && !committed && files == old(files)
      ensures r == Err(CannotCreate) ==> !committed && files == old(files)
      ensures !committed ==> r.Err? && (files == old(files) <==> path in old(files) || f.create || f.remove)
      ensures committed <==>
                && path !in old(files) && !f.create
                && bundle.Some? && bundle.value.Some? && Acceptable(bundle.value.value)
                && c.encode(bundle.value.value).Some? && f.write.None? && !f.sync && !f.close
      ensures committed ==> path in files && files[path] == c.encode(bundle.value.value).value + "\n"
      ensures committed ==> r == if completed then Ok(()) else Err(CompletionFailed)
      ensures r == Err(CompletionFailed) ==> committed
    {
      if path in files || f.create {
        return Err(CannotCreate), false;
      }
      ghost var before := files;
      files := files[path := ""];
      committed := false;
      var valid := false;
      if bundle.Some? {
        valid := Validate(bundle.value);
      }
      if bundle.None? {
        r := Err(ExportFailed);
      } else if !valid {
        r := Err(Invalid);
      } else {
        var data := c.encode(bundle.value.value);
        if data.None? {
          r := Err(CannotEncode);
        } else {
          var text := data.value + "\n";
          if f.write.Some? {
            files := files[path := text[..if f.write.value <= |text| then f.write.value else |text|]];
            r := Err(CannotWrite);
          } else {
            files := files[path := text];
            if f.sync {
              r := Err(CannotSync);
            } else if f.close {
              r := Err(CannotClose);
            } else {
              committed := true;
              r := if completed then Ok(()) else Err(CompletionFailed);
            }
          }
        }
      }
      if !committed && f.remove {
        files := files - {path};
        assert files == before;
      }
    }
  }

  /** The codec law: a bundle reads back from its own text with the final newline added. */
  ghost predicate Faithful(c: Codec) {
    forall b :: c.encode(b).Some? ==> c.decode(c.encode(b).value + "\n") == Some(b)
  }

  /** Exporting and then loading yields the bundle that was exported, even when the completion callback fails. */
  method ExportThenLoad(fs: FileSystem, path: string, bundle: Option<Option<Bundle>>, c: Codec,
                        f: Faults, completed: bool)
    returns (exported: Reply<()>, loaded: Reply<Bundle>)
    requires Faithful(c)
    modifies fs
    ensures exported.Ok? || exported == Err(CompletionFailed) ==>
              bundle.Some? && bundle.value.Some? && loaded == Ok(bundle.value.value)
    ensures exported.Err? && exported.error != CompletionFailed && f.remove && path !in old(fs.files) ==>
              loaded == Err(CannotRead)
  {
    var committed;
    exported, committed := fs.WriteMigrationExport(path, bundle, c, f, completed);
    loaded := fs.LoadMigrationBundle(path, c);
  }
}
