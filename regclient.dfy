/** The registry client: per-host entries with a lazily built transport,
    the Docker Registry HTTP API V2 requests for manifests, manifest lists,
    blobs and tag lists, and the export of a pulled image into the layout
    `docker load` reads. The network, JSON, decompression and SHA-256 are
    oracles gathered in `Env`. */
module RegClient {
  import opened Wrappers
  import opened Reference

  type Bytes = seq<bv8>

  const MediaTypeDocker2Manifest := "application/vnd.docker.distribution.manifest.v2+json"
  const MediaTypeDocker2ManifestList := "application/vnd.docker.distribution.manifest.list.v2+json"
  const MediaTypeDocker2ImageConfig := "application/vnd.docker.container.image.v1+json"
  const MediaTypeOciManifest := "application/vnd.oci.image.manifest.v1+json"
  const MediaTypeOciIndex := "application/vnd.oci.image.index.v1+json"
  const MediaTypeOciConfig := "application/vnd.oci.image.config.v1+json"

  /** The client's errors; `Failed` carries whatever an oracle reported. */
  datatype Error = ErrMissingTag | ErrNotFound | Failed(cause: string)

  datatype TlsConf = TlsEnabled | TlsInsecure | TlsDisabled

  /** One connection pool; its settings bound the resources one registry may
      hold. Durations are in milliseconds. */
  class Transport {
    const insecureSkipVerify: bool
    const proxyFromEnvironment: bool
    const dialTimeout: nat
    const keepAlive: nat
    const fallbackDelay: nat
    const maxIdleConns: nat
    const idleConnTimeout: nat
    const tlsHandshakeTimeout: nat
    const expectContinueTimeout: nat

    /** The transport `newRetryableForHost` builds: verification is skipped
        only for an insecure host, and every limit is set. */
    constructor (tls: TlsConf)
      ensures insecureSkipVerify <==> tls == TlsInsecure
      ensures proxyFromEnvironment
      ensures dialTimeout == 30000 && keepAlive == 30000 && fallbackDelay == 300
      ensures maxIdleConns == 10 && idleConnTimeout == 30000
      ensures tlsHandshakeTimeout == 10000 && expectContinueTimeout == 5000
    {
      insecureSkipVerify := tls == TlsInsecure;
      proxyFromEnvironment := true;
      dialTimeout, keepAlive, fallbackDelay := 30000, 30000, 300;
      maxIdleConns, idleConnTimeout := 10, 30000;
      tlsHandshakeTimeout, expectContinueTimeout := 10000, 5000;
    }
  }

  /** A registry host entry; only the transport changes after creation. */
  class RegHost {
    const scheme: string
    const tls: TlsConf
    const dnsNames: seq<string>
    var transport: Transport?

    constructor (scheme: string, tls: TlsConf, dnsNames: seq<string>)
      ensures this.scheme == scheme && this.tls == tls && this.dnsNames == dnsNames
      ensures transport == null
    {
      this.scheme, this.tls, this.dnsNames := scheme, tls, dnsNames;
      transport := null;
    }
  }

  /** The request executor handed to the (unmodelled) retry loop. */
  datatype Retryable = Retryable(transport: Transport, limit: int)

  datatype Url = Url(scheme: string, host: string, path: string)
  datatype Request = Request(verb: string, url: Url, accept: seq<string>)
  datatype Response = Response(contentType: string, body: Bytes)

  datatype Descriptor = Descriptor(mediaType: string, digest: string, size: int)
  datatype Manifest = Manifest(config: Descriptor, layers: seq<Descriptor>)
  datatype Index = Index(manifests: seq<Descriptor>)
  datatype TagList = TagList(name: string, tags: seq<string>)
  /** An image configuration: its layer DiffIDs and everything else. */
  datatype ImageConfig = ImageConfig(diffIDs: seq<string>, other: string)
  /** One entry of the exported `manifest.json`. */
  datatype ExportEntry = ExportEntry(config: string, repoTags: seq<string>, layers: seq<string>)
  /** The exported tree, before it is packed: file path to content. */
  datatype Archive = Archive(entry: ExportEntry, config: ImageConfig, files: map<string, Bytes>)
  /** The exported layers: their paths, their DiffIDs and the files written. */
  datatype LayerSet = LayerSet(layers: seq<string>, diffIDs: seq<string>, files: map<string, Bytes>)

  /** The oracles: the HTTP exchange through the retrying executor (body
      already read), the JSON codecs, gzip decompression, and hex SHA-256. */
  datatype Env = Env(
    send: Request -> Result<Response, Error>,
    decodeManifest: Bytes -> Result<Manifest, Error>,
    decodeIndex: Bytes -> Result<Index, Error>,
    decodeTagList: Bytes -> Result<TagList, Error>,
    decodeConfig: Bytes -> Result<ImageConfig, Error>,
    encodeConfig: ImageConfig -> Result<Bytes, Error>,
    encodeExport: seq<ExportEntry> -> Result<Bytes, Error>,
    decompress: Bytes -> Result<Bytes, Error>,
    sha256Hex: Bytes -> string)

  /** SHA-256 written in hex is 64 digits long. */
  ghost predicate HexLength(env: Env) {
    forall b :: |env.sha256Hex(b)| == 64
  }

  // ---------------------------------------------------------------------
  // Requests

  /** Manifest lookups use the digest when there is one, otherwise the tag,
      and fail without a request when neither is set. */
  function TagOrDigest(ref: Ref): (r: Result<string, Error>)
    ensures r.Err? <==> ref.digest == "" && ref.tag == ""
    ensures r.Err? ==> r.error == ErrMissingTag
    ensures ref.digest != "" ==> r == Ok(ref.digest)
    ensures ref.digest == "" && ref.tag != "" ==> r == Ok(ref.tag)
  {
    if ref.digest != "" then Ok(ref.digest)
    else if ref.tag != "" then Ok(ref.tag)
    else Err(ErrMissingTag)
  }

  function ManifestPath(repository: string, tagOrDigest: string): string {
    "/v2/" + repository + "/manifests/" + tagOrDigest
  }

  function BlobPath(repository: string, digest: string): string {
    "/v2/" + repository + "/blobs/" + digest
  }

  function TagsPath(repository: string): string {
    "/v2/" + repository + "/tags/list"
  }

  /** The three endpoints of one repository never share a path, and a
      manifest path names exactly one tag or digest. */
  lemma EndpointsDistinct(repository: string, t: string, t': string, d: string)
    ensures ManifestPath(repository, t) != BlobPath(repository, d)
    ensures ManifestPath(repository, t) != TagsPath(repository)
    ensures BlobPath(repository, d) != TagsPath(repository)
    ensures ManifestPath(repository, t) == ManifestPath(repository, t') ==> t == t'
  {
    var k := |"/v2/" + repository + "/"|;
    assert ManifestPath(repository, t)[k] == 'm';
    assert BlobPath(repository, d)[k] == 'b';
    assert TagsPath(repository)[k] == 't';
    var n := |"/v2/" + repository + "/manifests/"|;
    if ManifestPath(repository, t) == ManifestPath(repository, t') {
      assert t == ManifestPath(repository, t)[n..];
      assert t' == ManifestPath(repository, t')[n..];
    }
  }

  /** A host entry's address as the request URL uses it: its scheme and first
      DNS name, or the defaults an unknown host gets. */
  function Endpoint(hosts: map<string, RegHost>, hostname: string): (e: (string, string))
    requires hostname in hosts ==> hosts[hostname].dnsNames != []
    ensures hostname !in hosts ==> e == ("https", hostname)
  {
    if hostname in hosts then (hosts[hostname].scheme, hosts[hostname].dnsNames[0])
    else ("https", hostname)
  }

  function ManifestRequest(ep: (string, string), ref: Ref, accept: seq<string>): (r: Result<Request, Error>)
    ensures r.Ok? <==> ref.digest != "" || ref.tag != ""
  {
    var tagOrDigest :- TagOrDigest(ref);
    Ok(Request("GET", Url(ep.0, ep.1, ManifestPath(ref.repository, tagOrDigest)), accept))
  }

  /** `ManifestGet` as a function of the host address. */
  function ManifestOutcome(env: Env, ep: (string, string), ref: Ref): Result<Manifest, Error> {
    var req :- ManifestRequest(ep, ref, [MediaTypeDocker2Manifest, MediaTypeOciManifest]);
    var resp :- env.send(req);
    env.decodeManifest(resp.body)
  }

  predicate IsListType(contentType: string) {
    contentType == MediaTypeDocker2ManifestList || contentType == MediaTypeOciIndex
  }

  /** `ManifestListGet` as a function of the host address. */
  function ManifestListOutcome(env: Env, ep: (string, string), ref: Ref): Result<Index, Error> {
    var req :- ManifestRequest(ep, ref, [MediaTypeDocker2ManifestList, MediaTypeOciIndex]);
    var resp :- env.send(req);
    if !IsListType(resp.contentType) then Err(ErrNotFound)
    else env.decodeIndex(resp.body)
  }

  /** `BlobGet` as a function of the host address. */
  function BlobOutcome(env: Env, ep: (string, string), ref: Ref, digest: string, accepts: seq<string>): Result<Response, Error> {
    env.send(Request("GET", Url(ep.0, ep.1, BlobPath(ref.repository, digest)), accepts))
  }

  /** `TagsList` as a function of the host address. */
  function TagsOutcome(env: Env, ep: (string, string), ref: Ref): Result<TagList, Error> {
    var resp :- env.send(Request("GET", Url(ep.0, ep.1, TagsPath(ref.repository)), []));
    env.decodeTagList(resp.body)
  }

  /** Lookups by reference: a digest wins over a tag; with neither, both
      manifest lookups fail with ErrMissingTag whatever the network would say;
      otherwise the single request goes to the manifests endpoint. */
  lemma ManifestLookupSelection(env: Env, ep: (string, string), ref: Ref)
    ensures ref.digest == "" && ref.tag == "" ==>
      ManifestOutcome(env, ep, ref) == Err(ErrMissingTag) && ManifestListOutcome(env, ep, ref) == Err(ErrMissingTag)
    ensures ref.digest != "" ==> (
      ManifestOutcome(env, ep, ref) ==
        var resp :- env.send(Request("GET", Url(ep.0, ep.1, ManifestPath(ref.repository, ref.digest)),
                                     [MediaTypeDocker2Manifest, MediaTypeOciManifest]));
        env.decodeManifest(resp.body))
    ensures ref.digest == "" && ref.tag != "" ==> (
      ManifestOutcome(env, ep, ref) ==
        var resp :- env.send(Request("GET", Url(ep.0, ep.1, ManifestPath(ref.repository, ref.tag)),
                                     [MediaTypeDocker2Manifest, MediaTypeOciManifest]));
        env.decodeManifest(resp.body))
  {
  }

  /** A manifest-list lookup answered with any content type but the two list
      types is ErrNotFound, whatever the body holds; answered with a list
      type, the body is decoded as an index. */
  lemma ManifestListContentType(env: Env, ep: (string, string), ref: Ref)
    requires ref.digest != "" || ref.tag != ""
    ensures var req := Request("GET", Url(ep.0, ep.1, ManifestPath(ref.repository, TagOrDigest(ref).value)),
                               [MediaTypeDocker2ManifestList, MediaTypeOciIndex]);
      && (env.send(req).Ok? && !IsListType(env.send(req).value.contentType) ==>
            ManifestListOutcome(env, ep, ref) == Err(ErrNotFound))
      && (env.send(req).Ok? && IsListType(env.send(req).value.contentType) ==>
            ManifestListOutcome(env, ep, ref) == env.decodeIndex(env.send(req).value.body))
      && (env.send(req).Err? ==> ManifestListOutcome(env, ep, ref) == Err(env.send(req).error))
  {
  }

  /** The config blob of a pulled manifest, decoded. */
  function ConfigOutcome(env: Env, ep: (string, string), ref: Ref, m: Manifest): Result<ImageConfig, Error> {
    var blob :- BlobOutcome(env, ep, ref, m.config.digest, [MediaTypeDocker2ImageConfig, MediaTypeOciConfig]);
    env.decodeConfig(blob.body)
  }

  /** A layer blob, decompressed into its tar form. */
  function LayerTar(env: Env, ep: (string, string), ref: Ref, d: Descriptor): Result<Bytes, Error> {
    var blob :- BlobOutcome(env, ep, ref, d.digest, []);
    env.decompress(blob.body)
  }

  /** The first `|layers|` manifest layers are exported: layer `i` is the
      decompressed blob stored at "<hex>/layer.tar", where hex is the SHA-256
      of that tar, and its DiffID is "sha256:<hex>"; no two layers share a
      directory, and the tree holds nothing else. */
  ghost predicate LayersExported(env: Env, ep: (string, string), ref: Ref, descs: seq<Descriptor>,
                                 layers: seq<string>, diffIDs: seq<string>, files: map<string, Bytes>)
  {
    && |layers| == |diffIDs| <= |descs|
    && (forall i :: 0 <= i < |layers| ==>
          && layers[i] in files
          && LayerTar(env, ep, ref, descs[i]) == Ok(files[layers[i]])
          && layers[i] == env.sha256Hex(files[layers[i]]) + "/layer.tar"
          && diffIDs[i] == "sha256:" + env.sha256Hex(files[layers[i]]))
    && (forall i, j :: 0 <= i < j < |layers| ==> layers[i] != layers[j])
  }

  /** Files written after the layers do not disturb them. */
  lemma LayersExportedFrame(env: Env, ep: (string, string), ref: Ref, descs: seq<Descriptor>,
                            layers: seq<string>, diffIDs: seq<string>, files: map<string, Bytes>, files': map<string, Bytes>)
    requires LayersExported(env, ep, ref, descs, layers, diffIDs, files)
    requires forall k :: k in files ==> k in files' && files'[k] == files[k]
    ensures LayersExported(env, ep, ref, descs, layers, diffIDs, files')
  {
  }

  /** One more layer, stored under a directory not yet written, extends an
      export. */
  lemma LayersExportedExtend(env: Env, ep: (string, string), ref: Ref, descs: seq<Descriptor>,
                             layers: seq<string>, diffIDs: seq<string>, files: map<string, Bytes>, tar: Bytes)
    requires LayersExported(env, ep, ref, descs, layers, diffIDs, files)
    requires |layers| < |descs| && LayerTar(env, ep, ref, descs[|layers|]) == Ok(tar)
    requires env.sha256Hex(tar) + "/layer.tar" !in files
    ensures var f := env.sha256Hex(tar) + "/layer.tar";
      LayersExported(env, ep, ref, descs, layers + [f], diffIDs + ["sha256:" + env.sha256Hex(tar)], files[f := tar])
  {
  }

  /** What a successful export holds: RepoTags is the common name, the
      manifest and config are the ones the registry served, every manifest
      layer is exported in order, the config is the served one with the new
      DiffIDs and is stored under "<hex>.json" of its own encoding, and
      manifest.json encodes the one entry. */
  ghost predicate ExportFaithful(env: Env, ep: (string, string), ref: Ref, pulled: Manifest, a: Archive) {
    && a.entry.repoTags == [CommonName(ref)]
    && ManifestOutcome(env, ep, ref) == Ok(pulled)
    && ConfigOutcome(env, ep, ref, pulled).Ok?
    && a.config == ConfigOutcome(env, ep, ref, pulled).value.(diffIDs := a.config.diffIDs)
    && |a.entry.layers| == |pulled.layers|
    && LayersExported(env, ep, ref, pulled.layers, a.entry.layers, a.config.diffIDs, a.files)
    && a.entry.config in a.files && a.entry.config == env.sha256Hex(a.files[a.entry.config]) + ".json"
    && env.encodeConfig(a.config) == Ok(a.files[a.entry.config])
    && "manifest.json" in a.files && env.encodeExport([a.entry]) == Ok(a.files["manifest.json"])
    && (forall k :: k in a.files ==> k == "manifest.json" || k == a.entry.config || k in a.entry.layers)
  }

  /** Assembling the archive from exported layers, the re-encoded config and
      the encoded manifest.json gives a faithful export. */
  lemma AssembleExport(env: Env, ep: (string, string), ref: Ref, pulled: Manifest, ls: LayerSet,
                       conf: ImageConfig, confBytes: Bytes, exported: Bytes)
    requires HexLength(env)
    requires ManifestOutcome(env, ep, ref) == Ok(pulled)
    requires ConfigOutcome(env, ep, ref, pulled) == Ok(conf)
    requires |ls.layers| == |pulled.layers|
    requires LayersExported(env, ep, ref, pulled.layers, ls.layers, ls.diffIDs, ls.files)
    requires forall k :: k in ls.files ==> k in ls.layers
    requires env.encodeConfig(conf.(diffIDs := ls.diffIDs)) == Ok(confBytes)
    requires var entry := ExportEntry(env.sha256Hex(confBytes) + ".json", [CommonName(ref)], ls.layers);
      env.encodeExport([entry]) == Ok(exported)
    ensures var confFile := env.sha256Hex(confBytes) + ".json";
      ExportFaithful(env, ep, ref, pulled,
        Archive(ExportEntry(confFile, [CommonName(ref)], ls.layers), conf.(diffIDs := ls.diffIDs),
                ls.files[confFile := confBytes]["manifest.json" := exported]))
  {
    var confFile := env.sha256Hex(confBytes) + ".json";
    var files := ls.files[confFile := confBytes]["manifest.json" := exported];
    LayerKeyLength(env, ep, ref, pulled.layers, ls.layers, ls.diffIDs, ls.files);
    ArchiveFiles(ls.files, ls.layers, confFile, confBytes, exported);
    LayersExportedFrame(env, ep, ref, pulled.layers, ls.layers, ls.diffIDs, ls.files, files);
  }

  /** Every file of an exported layer tree is named "<64 hex digits>/layer.tar". */
  lemma LayerKeyLength(env: Env, ep: (string, string), ref: Ref, descs: seq<Descriptor>,
                       layers: seq<string>, diffIDs: seq<string>, files: map<string, Bytes>)
    requires HexLength(env)
    requires LayersExported(env, ep, ref, descs, layers, diffIDs, files)
    ensures forall i :: 0 <= i < |layers| ==> |layers[i]| == 74
  {
    forall i | 0 <= i < |layers| ensures |layers[i]| == 74 {
      assert |env.sha256Hex(files[layers[i]])| == 64;
    }
  }

  /** Adding the config file (69 characters) and manifest.json (13) to a
      layer tree (74 characters per name) overwrites nothing, and the result
      holds exactly those two and the layers. */
  lemma ArchiveFiles(files: map<string, Bytes>, layers: seq<string>, confFile: string, confBytes: Bytes, exported: Bytes)
    requires forall i :: 0 <= i < |layers| ==> |layers[i]| == 74
    requires forall k :: k in files ==> k in layers
    requires |confFile| == 69
    ensures var f := files[confFile := confBytes]["manifest.json" := exported];
      && (forall k :: k in files ==> k in f && f[k] == files[k])
      && confFile in f && f[confFile] == confBytes
      && "manifest.json" in f && f["manifest.json"] == exported
      && (forall k :: k in f ==> k == "manifest.json" || k == confFile || k in layers)
  {
    assert |"manifest.json"| == 13;
    forall k | k in files ensures |k| == 74 {
      var i :| 0 <= i < |layers| && layers[i] == k;
    }
  }

  // ---------------------------------------------------------------------
  // The client

  /** Client options; the two kept here do nothing in the source. */
  datatype Opt = WithDockerCerts | WithRegClientConf

  /** The new map `after` is `before` plus, at most, a new entry for `hostname`. */
  ghost predicate HostsGrew(before: map<string, RegHost>, after: map<string, RegHost>, hostname: string) {
    && hostname in after
    && after.Keys == before.Keys + {hostname}
    && (forall k :: k in before ==> after[k] == before[k])
  }

  class Client {
    var hosts: map<string, RegHost>
    var retryLimit: int

    /** Every host entry has a DNS name to send requests to, and each name
        has an entry of its own. */
    ghost predicate Valid()
      reads this
    {
      && (forall h :: h in hosts ==> hosts[h].dnsNames != [])
      && (forall a, b :: a in hosts && b in hosts && a != b ==> hosts[a] != hosts[b])
    }

    /** `NewRegClient`: Docker Hub is pre-seeded and reached through
        registry-1.docker.io, with three attempts per request. */
    constructor (opts: seq<Opt>)
      ensures Valid()
      ensures hosts.Keys == {"docker.io"} && retryLimit == 3
      ensures hosts["docker.io"].scheme == "https" && hosts["docker.io"].tls == TlsEnabled
      ensures hosts["docker.io"].dnsNames == ["registry-1.docker.io"]
      ensures hosts["docker.io"].transport == null
    {
      var hub := new RegHost("https", TlsEnabled, ["registry-1.docker.io"]);
      hosts := map["docker.io" := hub];
      retryLimit := 3;
      new;
      for i := 0 to |opts|
        invariant hosts == map["docker.io" := hub] && retryLimit == 3 && hub.transport == null
      {
        ApplyOpt(opts[i]);
      }
    }

    /** Applying an option: both options kept here leave the client as it is. */
    method ApplyOpt(opt: Opt)
      ensures hosts == old(hosts) && retryLimit == old(retryLimit)
    {
      match opt
      case WithDockerCerts =>
      case WithRegClientConf =>
    }

    /** `getHost`: an existing entry is returned unchanged; an unknown host gets
        a fresh https, TLS-verified entry named after itself; no other entry
        changes, so a second call returns the same entry. */
    method GetHost(hostname: string) returns (host: RegHost)
      requires Valid()
      modifies this
      ensures Valid() && retryLimit == old(retryLimit)
      ensures HostsGrew(old(hosts), hosts, hostname) && hosts[hostname] == host
      ensures hostname in old(hosts) ==> hosts == old(hosts)
      ensures hostname !in old(hosts) ==> (
        && fresh(host) && host.scheme == "https" && host.tls == TlsEnabled
        && host.dnsNames == [hostname] && host.transport == null)
      ensures Endpoint(hosts, hostname) == Endpoint(old(hosts), hostname)
    {
      if hostname in hosts {
        host := hosts[hostname];
      } else {
        host := new RegHost("https", TlsEnabled, [hostname]);
        hosts := hosts[hostname := host];
      }
    }

    /** `newRetryableForHost`: a transport is built only when the host has
        none, so later calls reuse the same one. */
    method NewRetryableForHost(host: RegHost) returns (r: Retryable)
      modifies host
      ensures old(host.transport) != null ==> host.transport == old(host.transport)
      ensures old(host.transport) == null ==> fresh(host.transport)
      ensures host.transport != null && r == Retryable(host.transport, retryLimit)
      ensures old(host.transport) == null ==>
        (host.transport.insecureSkipVerify <==> host.tls == TlsInsecure) && host.transport.maxIdleConns == 10
    {
      if host.transport == null {
        var t := new Transport(host.tls);
        host.transport := t;
      }
      r := Retryable(host.transport, retryLimit);
    }

    /** `ManifestGet`: the host entry is looked up (and created) first, then
        the lookup goes to the host's first DNS name. */
    method ManifestGet(env: Env, ref: Ref) returns (res: Result<Manifest, Error>)
      requires Valid()
      modifies this, hosts.Values
      ensures Valid() && retryLimit == old(retryLimit)
      ensures HostsGrew(old(hosts), hosts, ref.registry)
      ensures Endpoint(hosts, ref.registry) == Endpoint(old(hosts), ref.registry)
      ensures forall h :: h in hosts.Values ==> h in old(hosts.Values) || fresh(h)
      ensures res == ManifestOutcome(env, Endpoint(old(hosts), ref.registry), ref)
      ensures forall k :: k in old(hosts) && k != ref.registry ==> hosts[k].transport == old(hosts[k].transport)
      ensures ref.registry in old(hosts) && old(hosts[ref.registry].transport) != null ==>
        hosts[ref.registry].transport == old(hosts[ref.registry].transport)
      ensures TagOrDigest(ref).Ok? ==> hosts[ref.registry].transport != null
    {
      var host := GetHost(ref.registry);
      var tagOrDigest := TagOrDigest(ref);
      if tagOrDigest.Err? {
        return Err(tagOrDigest.error);
      }
      var req := Request("GET", Url(host.scheme, host.dnsNames[0], ManifestPath(ref.repository, tagOrDigest.value)),
                         [MediaTypeDocker2Manifest, MediaTypeOciManifest]);
      var rty := NewRetryableForHost(host);
      var resp := env.send(req);
      if resp.Err? {
        return Err(resp.error);
      }
      res := env.decodeManifest(resp.value.body);
    }

    /** `ManifestListGet`: like ManifestGet with the list media types, and a
        response of another content type is ErrNotFound. */
    method ManifestListGet(env: Env, ref: Ref) returns (res: Result<Index, Error>)
      requires Valid()
      modifies this, hosts.Values
      ensures Valid() && retryLimit == old(retryLimit)
      ensures HostsGrew(old(hosts), hosts, ref.registry)
      ensures Endpoint(hosts, ref.registry) == Endpoint(old(hosts), ref.registry)
      ensures forall h :: h in hosts.Values ==> h in old(hosts.Values) || fresh(h)
      ensures res == ManifestListOutcome(env, Endpoint(old(hosts), ref.registry), ref)
      ensures forall k :: k in old(hosts) && k != ref.registry ==> hosts[k].transport == old(hosts[k].transport)
      ensures ref.registry in old(hosts) && old(hosts[ref.registry].transport) != null ==>
        hosts[ref.registry].transport == old(hosts[ref.registry].transport)
      ensures TagOrDigest(ref).Ok? ==> hosts[ref.registry].transport != null
    {
      var host := GetHost(ref.registry);
      var tagOrDigest := TagOrDigest(ref);
      if tagOrDigest.Err? {
        return Err(tagOrDigest.error);
      }
      var req := Request("GET", Url(host.scheme, host.dnsNames[0], ManifestPath(ref.repository, tagOrDigest.value)),
                         [MediaTypeDocker2ManifestList, MediaTypeOciIndex]);
      var rty := NewRetryableForHost(host);
      var resp := env.send(req);
      if resp.Err? {
        return Err(resp.error);
      }
      var ct := resp.value.contentType;
      if ct != MediaTypeDocker2ManifestList && ct != MediaTypeOciIndex {
        return Err(ErrNotFound);
      }
      res := env.decodeIndex(resp.value.body);
    }

    /** `BlobGet`: streams `/v2/<repository>/blobs/<digest>` with the caller's
        Accept types. */
    method BlobGet(env: Env, ref: Ref, digest: string, accepts: seq<string>) returns (res: Result<Response, Error>)
      requires Valid()
      modifies this, hosts.Values
      ensures Valid() && retryLimit == old(retryLimit)
      ensures HostsGrew(old(hosts), hosts, ref.registry)
      ensures Endpoint(hosts, ref.registry) == Endpoint(old(hosts), ref.registry)
      ensures forall h :: h in hosts.Values ==> h in old(hosts.Values) || fresh(h)
      ensures res == BlobOutcome(env, Endpoint(old(hosts), ref.registry), ref, digest, accepts)
      ensures forall k :: k in old(hosts) && k != ref.registry ==> hosts[k].transport == old(hosts[k].transport)
      ensures ref.registry in old(hosts) && old(hosts[ref.registry].transport) != null ==>
        hosts[ref.registry].transport == old(hosts[ref.registry].transport)
      ensures hosts[ref.registry].transport != null
    {
      var host := GetHost(ref.registry);
      var req := Request("GET", Url(host.scheme, host.dnsNames[0], BlobPath(ref.repository, digest)), accepts);
      var rty := NewRetryableForHost(host);
      res := env.send(req);
    }

    /** `TagsList`: `/v2/<repository>/tags/list`, decoded. */
    method TagsList(env: Env, ref: Ref) returns (res: Result<TagList, Error>)
      requires Valid()
      modifies this, hosts.Values
      ensures Valid() && retryLimit == old(retryLimit)
      ensures HostsGrew(old(hosts), hosts, ref.registry)
      ensures Endpoint(hosts, ref.registry) == Endpoint(old(hosts), ref.registry)
      ensures forall h :: h in hosts.Values ==> h in old(hosts.Values) || fresh(h)
      ensures res == TagsOutcome(env, Endpoint(old(hosts), ref.registry), ref)
      ensures forall k :: k in old(hosts) && k != ref.registry ==> hosts[k].transport == old(hosts[k].transport)
      ensures ref.registry in old(hosts) && old(hosts[ref.registry].transport) != null ==>
        hosts[ref.registry].transport == old(hosts[ref.registry].transport)
      ensures hosts[ref.registry].transport != null
    {
      var host := GetHost(ref.registry);
      var req := Request("GET", Url(host.scheme, host.dnsNames[0], TagsPath(ref.repository)), []);
      var rty := NewRetryableForHost(host);
      var resp := env.send(req);
      if resp.Err? {
        return Err(resp.error);
      }
      res := env.decodeTagList(resp.value.body);
    }
    /** Pulls and exports the given layers in order (the loop of
        `ImageExport`); a second layer with the same DiffID fails, as renaming
        onto its non-empty directory does. */
    method ExportLayers(env: Env, ref: Ref, descs: seq<Descriptor>) returns (res: Result<LayerSet, Error>)
      requires Valid() && ref.registry in hosts
      modifies this, hosts.Values
      ensures Valid() && hosts == old(hosts) && retryLimit == old(retryLimit)
      ensures res.Ok? ==> |res.value.layers| == |descs|
      ensures res.Ok? ==> LayersExported(env, Endpoint(hosts, ref.registry), ref, descs,
                                         res.value.layers, res.value.diffIDs, res.value.files)
      ensures res.Ok? ==> forall k :: k in res.value.files ==> k in res.value.layers
      ensures forall k :: k in hosts && k != ref.registry ==> hosts[k].transport == old(hosts[k].transport)
      ensures old(hosts[ref.registry].transport) != null ==>
        hosts[ref.registry].transport == old(hosts[ref.registry].transport)
      ensures descs != [] ==> hosts[ref.registry].transport != null
    {
      ghost var ep := Endpoint(hosts, ref.registry);
      ghost var host := hosts[ref.registry];
      var layers: seq<string> := [];
      var diffIDs: seq<string> := [];
      var files: map<string, Bytes> := map[];
      var i := 0;
      while i < |descs|
        invariant Valid() && hosts == old(hosts) && retryLimit == old(retryLimit)
        invariant i == |layers| <= |descs|
        invariant LayersExported(env, ep, ref, descs, layers, diffIDs, files)
        invariant forall k :: k in files ==> k in layers
        invariant forall k :: k in hosts && k != ref.registry ==> hosts[k].transport == old(hosts[k].transport)
        invariant old(host.transport) != null ==> host.transport == old(host.transport)
        invariant i > 0 ==> host.transport != null
      {
        var blob := BlobGet(env, ref, descs[i].digest, []);
        if blob.Err? {
          return Err(blob.error);
        }
        var tar := env.decompress(blob.value.body);
        if tar.Err? {
          return Err(tar.error);
        }
        var hex := env.sha256Hex(tar.value);
        var layerFile := hex + "/layer.tar";
        if layerFile in files {
          return Err(Failed("rename: directory exists"));
        }
        LayersExportedExtend(env, ep, ref, descs, layers, diffIDs, files, tar.value);
        files := files[layerFile := tar.value];
        layers := layers + [layerFile];
        diffIDs := diffIDs + ["sha256:" + hex];
        i := i + 1;
      }
      res := Ok(LayerSet(layers, diffIDs, files));
    }

    /** The pulling half of `ImageExport`: the manifest, then its config
        blob with the config media types, decoded. */
    method PullConfig(env: Env, ref: Ref) returns (res: Result<(Manifest, ImageConfig), Error>)
      requires Valid()
      modifies this, hosts.Values
      ensures Valid() && retryLimit == old(retryLimit)
      ensures HostsGrew(old(hosts), hosts, ref.registry)
      ensures Endpoint(hosts, ref.registry) == Endpoint(old(hosts), ref.registry)
      ensures forall k :: k in old(hosts) && k != ref.registry ==> hosts[k].transport == old(hosts[k].transport)
      ensures ref.registry in old(hosts) && old(hosts[ref.registry].transport) != null ==>
        hosts[ref.registry].transport == old(hosts[ref.registry].transport)
      ensures TagOrDigest(ref).Ok? ==> hosts[ref.registry].transport != null
      ensures forall h :: h in hosts.Values ==> h in old(hosts.Values) || fresh(h)
      ensures res.Ok? <==> (
        && ManifestOutcome(env, Endpoint(old(hosts), ref.registry), ref).Ok?
        && ConfigOutcome(env, Endpoint(old(hosts), ref.registry), ref,
                         ManifestOutcome(env, Endpoint(old(hosts), ref.registry), ref).value).Ok?)
      ensures res.Ok? ==>
        && ManifestOutcome(env, Endpoint(old(hosts), ref.registry), ref) == Ok(res.value.0)
        && ConfigOutcome(env, Endpoint(old(hosts), ref.registry), ref, res.value.0) == Ok(res.value.1)
    {
      var m := ManifestGet(env, ref);
      if m.Err? {
        return Err(m.error);
      }
      var confBlob := BlobGet(env, ref, m.value.config.digest, [MediaTypeDocker2ImageConfig, MediaTypeOciConfig]);
      if confBlob.Err? {
        return Err(confBlob.error);
      }
      var conf := env.decodeConfig(confBlob.value.body);
      if conf.Err? {
        return Err(conf.error);
      }
      res := Ok((m.value, conf.value));
    }

    /** `ImageExport`: refuses a reference without a common name; otherwise
        pulls the manifest, the config and every layer in manifest order and
        builds the export tree. A config or layer digest that does not match
        is only a warning in the source, so it changes nothing here. */
    method ImageExport(env: Env, ref: Ref) returns (res: Result<Archive, Error>, ghost pulled: Manifest)
      requires Valid()
      requires HexLength(env)
      modifies this, hosts.Values
      ensures Valid() && retryLimit == old(retryLimit)
      ensures CommonName(ref) == "" ==> res == Err(ErrNotFound)
      ensures CommonName(ref) == "" ==> hosts == old(hosts)
      ensures CommonName(ref) != "" ==> HostsGrew(old(hosts), hosts, ref.registry)
      ensures forall k :: k in old(hosts) && k != ref.registry ==> hosts[k].transport == old(hosts[k].transport)
      ensures ref.registry in old(hosts) && old(hosts[ref.registry].transport) != null ==>
        hosts[ref.registry].transport == old(hosts[ref.registry].transport)
      ensures CommonName(ref) != "" && TagOrDigest(ref).Ok? ==> hosts[ref.registry].transport != null
      ensures res.Ok? ==> ExportFaithful(env, Endpoint(old(hosts), ref.registry), ref, pulled, res.value)
    {
      pulled := Manifest(Descriptor("", "", 0), []);
      var name := CommonName(ref);
      if name == "" {
        return Err(ErrNotFound), pulled;
      }
      var repoTags := [name];
      var pc := PullConfig(env, ref);
      if pc.Err? {
        return Err(pc.error), pulled;
      }
      var m, conf := pc.value.0, pc.value.1;
      pulled := m;
      var ls := ExportLayers(env, ref, m.layers);
      if ls.Err? {
        return Err(ls.error), pulled;
      }
      var newConf := conf.(diffIDs := ls.value.diffIDs);
      var confBytes := env.encodeConfig(newConf);
      if confBytes.Err? {
        return Err(confBytes.error), pulled;
      }
      var confFile := env.sha256Hex(confBytes.value) + ".json";
      var entry := ExportEntry(confFile, repoTags, ls.value.layers);
      var exported := env.encodeExport([entry]);
      if exported.Err? {
        return Err(exported.error), pulled;
      }
      AssembleExport(env, Endpoint(old(hosts), ref.registry), ref, pulled, ls.value, conf, confBytes.value, exported.value);
      res := Ok(Archive(entry, newConf, ls.value.files[confFile := confBytes.value]["manifest.json" := exported.value]));
    }
  }
}
