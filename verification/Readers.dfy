/**
 Both readers with their own manifest checks: over every byte string, the same files, parsed
 to the same thing, with nothing left to a parameter but the compression function.
 */
module Readers {
  import opened Bytes
  import opened Blake3Tree
  import opened Container
  import opened Layout
  import opened Bundle
  import opened WireFormat
  import GoBundle
  import Manifest
  import ManifestSchema
  import RustManifest
  import GoManifest

  /** A file that parses, with a manifest that keeps the schema and agrees with the table. */
  ghost predicate IsFullBundle(c: Compression, file: seq<byte>, b: Parsed) {
    IsBundle(c, Manifest.ManifestOk, file, b)
  }

  /** The same, read off the disk and the schema. */
  ghost predicate IsBundleFile(c: Compression, file: seq<byte>, b: Parsed) {
    OnDisk(c, ManifestSchema.SchemaOk, file, b)
  }

  lemma FullOnDisk(c: Compression, file: seq<byte>)
    ensures forall b :: IsFullBundle(c, file, b) <==> IsBundleFile(c, file, b)
  {
    forall b
      ensures IsFullBundle(c, file, b) <==> IsBundleFile(c, file, b)
    {
      BundleOnDisk(c, Manifest.ManifestOk, file, b);
      SameManifests(c, file, b);
    }
  }

  lemma SameManifests(c: Compression, file: seq<byte>, b: Parsed)
    ensures OnDisk(c, Manifest.ManifestOk, file, b) <==> IsBundleFile(c, file, b)
  {
    if |b.manifest| < U64_RANGE {
      ManifestSchema.ManifestIff(b.manifest, b.sections);
    }
  }

  /** Everything but the manifest's contents. */
  predicate AnyManifest(m: seq<byte>, sections: seq<Record>) {
    true
  }

  lemma FullIsBoth(c: Compression, file: seq<byte>, b: Parsed)
    ensures IsFullBundle(c, file, b) <==> IsBundle(c, AnyManifest, file, b) && Manifest.ManifestOk(b.manifest, b.sections)
  {
  }

  lemma ManifestInFile(c: Compression, file: seq<byte>, b: Parsed)
    requires IsBundle(c, AnyManifest, file, b)
    ensures |b.manifest| < U64_RANGE && DistinctNames(b.sections)
  {
  }

  lemma OnlyOne(c: Compression, file: seq<byte>, b: Parsed)
    requires IsBundle(c, AnyManifest, file, b)
    ensures forall other :: IsFullBundle(c, file, other) ==> other == b
  {
    forall other | IsFullBundle(c, file, other)
      ensures other == b
    {
      FullIsBoth(c, file, other);
      BundleUnique(c, AnyManifest, file, other, b);
    }
  }

  /** `Bundle::parse`, manifest included. */
  method ReadBundle(c: Compression, file: seq<byte>) returns (r: Result<Parsed>)
    ensures forall b :: r == Ok(b) <==> IsFullBundle(c, file, b)
    ensures forall b :: r == Ok(b) <==> IsBundleFile(c, file, b)
  {
    FullOnDisk(c, file);
    r := ParseBundle(c, AnyManifest, file);
    if r.Err? {
      forall b
        ensures !IsFullBundle(c, file, b)
      {
        FullIsBoth(c, file, b);
      }
      return Err;
    }
    var b := r.value;
    ManifestInFile(c, file, b);
    OnlyOne(c, file, b);
    FullIsBoth(c, file, b);
    var ok := RustManifest.CheckManifest(b.manifest, b.sections);
    if !ok {
      return Err;
    }
  }

  /** `Parse`, manifest included. */
  method GoReadBundle(c: Compression, file: seq<byte>) returns (r: Result<Parsed>)
    ensures forall b :: r == Ok(b) <==> IsFullBundle(c, file, b)
    ensures forall b :: r == Ok(b) <==> IsBundleFile(c, file, b)
  {
    FullOnDisk(c, file);
    r := GoBundle.GoParse(c, AnyManifest, file);
    if r.Err? {
      forall b
        ensures !IsFullBundle(c, file, b)
      {
        FullIsBoth(c, file, b);
      }
      return Err;
    }
    var b := r.value;
    ManifestInFile(c, file, b);
    OnlyOne(c, file, b);
    FullIsBoth(c, file, b);
    GoManifest.DistinctIsUniform(b.sections);
    var ok := GoManifest.CheckManifest(b.manifest, b.sections);
    if !ok {
      return Err;
    }
  }
}
