/** Where the action downloads mkcert from (`downloadMkcert`,
    src/main.ts:143-153): a release asset on GitHub whose address is built
    from the version, the operating system and the architecture. The
    `wget` download and the returned path are not part of this model. */
module Mkcert {
  import opened JsStrings

  /** The path under which mkcert's GitHub releases are downloaded. */
  const ReleasesDownload: string := "https://github.com/FiloSottile/mkcert/releases/download"

  /** The release tag of a version. */
  function Tag(version: string): (tag: string)
    ensures |tag| == |version| + 1 && tag[0] == 'v' && tag[1..] == version
  {
    "v" + version
  }

  /** The file name of the release asset for a version, an operating
      system and an architecture. */
  function AssetName(os: string, arch: string, version: string): (name: string)
    ensures "mkcert-" + Tag(version) <= name
  {
    "mkcert-v" + version + "-" + os + "-" + arch
  }

  /** The address `downloadMkcert` fetches with `wget`. It is the asset
      under its release tag in the release download path. */
  function DownloadUrl(os: string, arch: string, version: string): (url: string)
    ensures url == ReleasesDownload + "/" + Tag(version) + "/" + AssetName(os, arch, version)
  {
    assert "https://github.com/FiloSottile/mkcert/releases/download/v" == ReleasesDownload + "/" + "v";
    assert "/mkcert-v" == "/" + "mkcert-v";
    "https://github.com/FiloSottile/mkcert/releases/download/v"
      + version + "/mkcert-v" + version + "-" + os + "-" + arch
  }

  /** Two segments without '/' added under a path are its last two
      segments. */
  lemma PathSegments(base: string, tag: string, name: string)
    requires '/' !in tag && '/' !in name
    ensures Split(base + "/" + tag + "/" + name, "/") == Split(base, "/") + [tag, name]
  {
    ContainsChar(tag, '/');
    ContainsChar(name, '/');
    SplitAbsent(tag, "/");
    SplitAbsent(name, "/");
    assert base + "/" + tag + "/" + name == base + "/" + (tag + "/" + name);
    SplitAtSeparator(base, '/', tag + "/" + name);
    SplitAtSeparator(tag, '/', name);
  }

  /** With a version, an operating system and an architecture free of '/',
      the address's last two '/'-separated segments are the release tag
      and the asset name. */
  lemma UrlPath(os: string, arch: string, version: string)
    requires '/' !in os && '/' !in arch && '/' !in version
    ensures |Split(DownloadUrl(os, arch, version), "/")| >= 2
    ensures var parts := Split(DownloadUrl(os, arch, version), "/");
            parts[|parts| - 2] == Tag(version) && parts[|parts| - 1] == AssetName(os, arch, version)
  {
    var tag, name := Tag(version), AssetName(os, arch, version);
    assert '/' !in tag by {
      assert forall c :: c in tag ==> c == 'v' || c in version;
    }
    assert '/' !in name by {
      assert forall c :: c in name ==> c in "mkcert-v" || c in version || c in "-" || c in os || c in arch;
    }
    PathSegments(ReleasesDownload, tag, name);
  }

  /** A part without the separator is split off whole. */
  lemma SplitOff(a: string, rest: string)
    requires '-' !in a
    ensures Split(a + "-" + rest, "-") == [a] + Split(rest, "-")
  {
    ContainsChar(a, '-');
    SplitAbsent(a, "-");
    SplitAtSeparator(a, '-', rest);
  }

  /** Four parts without '-' joined with '-' split back into those parts. */
  lemma FourParts(a: string, b: string, c: string, d: string)
    requires '-' !in a && '-' !in b && '-' !in c && '-' !in d
    ensures Split(a + "-" + (b + "-" + (c + "-" + d)), "-") == [a, b, c, d]
  {
    ContainsChar(d, '-');
    SplitAbsent(d, "-");
    var cd := c + "-" + d;
    SplitOff(c, d);
    assert Split(cd, "-") == [c, d];
    var bcd := b + "-" + cd;
    SplitOff(b, cd);
    assert Split(bcd, "-") == [b, c, d];
    SplitOff(a, bcd);
  }

  /** With a version, an operating system and an architecture free of '-',
      the asset name splits at '-' back into `mkcert`, the release tag, the
      operating system and the architecture. */
  lemma AssetNameParts(os: string, arch: string, version: string)
    requires '-' !in os && '-' !in arch && '-' !in version
    ensures Split(AssetName(os, arch, version), "-") == ["mkcert", Tag(version), os, arch]
  {
    var tag := Tag(version);
    assert '-' !in tag by {
      assert forall c :: c in tag ==> c == 'v' || c in version;
    }
    assert AssetName(os, arch, version) == "mkcert" + "-" + (tag + "-" + (os + "-" + arch));
    FourParts("mkcert", tag, os, arch);
  }

  /** The action downloads mkcert 1.4.4 for 64-bit x86 Linux: the release
      tag and the asset that `UrlPath` finds at the end of its address. */
  lemma ActionAsset()
    ensures Tag("1.4.4") == "v1.4.4"
    ensures AssetName("linux", "amd64", "1.4.4") == "mkcert-v1.4.4-linux-amd64"
  {
  }
}
