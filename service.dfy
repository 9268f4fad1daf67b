/** The file-server plugin around the browser: its settings, the root the
    FTP and WebDAV services are given, how a browse request picks its
    current directory, and the page a browse request produces. */
module Service {
  import opened Strings
  import opened Roots
  import opened Paths
  import opened Listing

  // ---------------------------------------------------------------------------
  // Settings
  // ---------------------------------------------------------------------------

  /** A value of the plugin's configuration dictionary. */
  datatype Value = Null | Str(s: string) | Int(i: int) | Bool(b: bool)

  /** Python truthiness of a configuration value. */
  predicate Truthy(v: Value)
  {
    match v
    case Null => false
    case Str(s) => s != []
    case Int(i) => i != 0
    case Bool(b) => b
  }

  /** The settings the plugin reads once, in its constructor. */
  datatype Settings = Settings(httpPort: Value, ftpPort: Value, webdavPort: Value, defaultRoot: Value)

  const DefaultHttpPort := 8080
  const DefaultFtpPort := 2121
  const DefaultWebdavPort := 8081

  /** `config.get(key, default)`. */
  function Get(config: map<string, Value>, key: string, default: Value): Value
  {
    if key in config then config[key] else default
  }

  /** The plugin's constructor: every setting the configuration names is
      taken as given; a missing one gets its default (ports 8080, 2121 and
      8081, no root override). */
  function LoadSettings(config: map<string, Value>): (s: Settings)
    ensures "http_port" in config ==> s.httpPort == config["http_port"]
    ensures "ftp_port" in config ==> s.ftpPort == config["ftp_port"]
    ensures "webdav_port" in config ==> s.webdavPort == config["webdav_port"]
    ensures "default_root" in config ==> s.defaultRoot == config["default_root"]
    ensures "http_port" !in config ==> s.httpPort == Int(DefaultHttpPort)
    ensures "ftp_port" !in config ==> s.ftpPort == Int(DefaultFtpPort)
    ensures "webdav_port" !in config ==> s.webdavPort == Int(DefaultWebdavPort)
    ensures "default_root" !in config ==> s.defaultRoot == Null
  {
    Settings(
      Get(config, "http_port", Int(DefaultHttpPort)),
      Get(config, "ftp_port", Int(DefaultFtpPort)),
      Get(config, "webdav_port", Int(DefaultWebdavPort)),
      Get(config, "default_root", Null))
  }

  /** The root directory handed to the FTP and WebDAV services:
      `default_root or next(iter(get_system_roots().values()))`. None stands
      for the StopIteration of an empty root registry. */
  function ServiceRoot(s: Settings, roots: RootMap): (r: Option<Value>)
    ensures Truthy(s.defaultRoot) ==> r == Some(s.defaultRoot)
    ensures !Truthy(s.defaultRoot) && roots != [] ==> r == Some(Str(roots[0].1))
    ensures r.None? <==> !Truthy(s.defaultRoot) && roots == []
  {
    if Truthy(s.defaultRoot) then Some(s.defaultRoot)
    else match FirstRoot(roots)
      case None => None
      case Some(p) => Some(Str(p))
  }

  // ---------------------------------------------------------------------------
  // The host as the browser sees it
  // ---------------------------------------------------------------------------

  /** The host's platform, its drive API (used on Windows only) and the set
      of paths for which `os.path.exists` holds. */
  datatype Host = Host(platform: Platform, driveApi: DriveApi, existing: set<string>)

  /** The `os.path` flavour Python selects on a platform. */
  function FlavorOf(p: Platform): Flavor
  {
    if p.Windows? then Nt else Posix
  }

  function HostRoots(h: Host): RootMap
  {
    SystemRoots(h.platform, h.driveApi)
  }

  /** A Windows drive string as the drive API reports it: a letter, ':' and '\\'. */
  predicate DriveRootForm(d: string)
  {
    |d| == 3 && d[1] == ':' && d[2] == '\\' && d[0] !in Seps(Nt)
  }

  /** The drive API, when present, reports only drive roots. */
  predicate WellFormedDrives(h: Host)
  {
    h.platform.Windows? && h.driveApi.Loaded? ==>
      forall i :: 0 <= i < |Drives(h.driveApi.driveStrings)| ==> DriveRootForm(Drives(h.driveApi.driveStrings)[i])
  }

  /** Every root the registry lists is absolute and is a volume root, so the
      browsing page shows no "go up" link for it. */
  lemma RootsAreVolumeRoots(h: Host, i: nat)
    requires WellFormedDrives(h) && i < |HostRoots(h)|
    ensures IsAbs(FlavorOf(h.platform), HostRoots(h)[i].1)
    ensures Parent(FlavorOf(h.platform), HostRoots(h)[i].1) == None
  {
    var r := HostRoots(h)[i].1;
    match h.platform
    case OtherPlatform =>
      assert r == "/";
    case Windows =>
      match h.driveApi
      case Missing =>
        assert r == "C:\\";
        DriveRootHasNoParent(r);
      case Loaded(str) =>
        var ds := Drives(str);
        FromDrivesValues(ds, i);
        var k :| 0 <= k < |ds| && ds[k] == r;
        assert DriveRootForm(ds[k]);
        DriveRootHasNoParent(r);
  }

  // ---------------------------------------------------------------------------
  // Choosing the current directory of a browse request
  // ---------------------------------------------------------------------------

  /** A decoded request path the browser accepts: absolute and existing. */
  predicate Acceptable(f: Flavor, existing: set<string>, p: string)
  {
    IsAbs(f, p) && p in existing
  }

  /** The current directory of a browse request. `requested` is the raw path
      of `/browse/<path>` (None for `/`) and `decode` stands for `unquote`.
      A missing, relative or non-existent path falls back to the first system
      root; None stands for the StopIteration of an empty registry. */
  function Resolve(f: Flavor, roots: RootMap, existing: set<string>, decode: string -> string,
                   requested: Option<string>): (r: Option<string>)
    ensures requested.Some? && Acceptable(f, existing, decode(requested.value)) ==>
              r == Some(decode(requested.value))
    ensures !(requested.Some? && Acceptable(f, existing, decode(requested.value))) ==>
              r == FirstRoot(roots)
  {
    match requested
    case None => FirstRoot(roots)
    case Some(raw) =>
      var p := decode(raw);
      if !IsAbs(f, p) || p !in existing then FirstRoot(roots) else Some(p)
  }

  /** Following a link to the current directory lands on the same
      directory: any raw path that decodes to it (its quoted form, say) is
      resolved to it again. */
  lemma ResolveIdempotent(f: Flavor, roots: RootMap, existing: set<string>, decode: string -> string,
                          requested: Option<string>, raw: string)
    requires var r := Resolve(f, roots, existing, decode, requested);
             r.Some? && decode(raw) == r.value
    ensures Resolve(f, roots, existing, decode, Some(raw)) == Resolve(f, roots, existing, decode, requested)
  {
    var r := Resolve(f, roots, existing, decode, requested);
    if !Acceptable(f, existing, r.value) {
      assert r == FirstRoot(roots);
    }
  }

  /** On a host whose drive API reports drive roots, a browse request always
      finds an absolute current directory; only a Windows drive string with
      no NUL leaves it without one. */
  lemma ResolvedIsAbsolute(h: Host, decode: string -> string, requested: Option<string>)
    requires WellFormedDrives(h)
    ensures var r := Resolve(FlavorOf(h.platform), HostRoots(h), h.existing, decode, requested);
            && (r.None? <==> HostRoots(h) == [] && !(requested.Some? && Acceptable(FlavorOf(h.platform), h.existing, decode(requested.value))))
            && (r.Some? ==> IsAbs(FlavorOf(h.platform), r.value))
  {
    if HostRoots(h) != [] {
      RootsAreVolumeRoots(h, 0);
    }
  }

  // ---------------------------------------------------------------------------
  // The browsing page
  // ---------------------------------------------------------------------------

  /** What the page template is given. */
  datatype Page = Page(currentPath: string, parentPath: Option<string>, items: seq<Item>, systemRoots: RootMap)

  /** A rendered page, or an exception the view does not catch (HTTP 500). */
  datatype Response = Rendered(page: Page) | ServerError

  /** A GET of `/` or `/browse/<path>`: resolve the current directory, build
      its parent link as written, list it, and hand everything to the
      template. `scanOf` stands for `os.scandir` on the host.
      `ParentIsUpLinkOrSelf` says how the link differs from `UpLink`. */
  method Browse(h: Host, decode: string -> string, scanOf: string -> Scan, requested: Option<string>)
    returns (resp: Response)
    ensures var cur := Resolve(FlavorOf(h.platform), HostRoots(h), h.existing, decode, requested);
            resp.Rendered? <==> cur.Some? && !scanOf(cur.value).OtherError?
    ensures var cur := Resolve(FlavorOf(h.platform), HostRoots(h), h.existing, decode, requested);
            resp.Rendered? ==>
              && resp.page.currentPath == cur.value
              && resp.page.parentPath == Parent(FlavorOf(h.platform), cur.value)
              && IsListingOf(scanOf(cur.value), resp.page.items)
              && resp.page.systemRoots == HostRoots(h)
  {
    var f := FlavorOf(h.platform);
    var cur := Resolve(f, HostRoots(h), h.existing, decode, requested);
    if cur.None? {
      return ServerError;
    }
    var parent := Parent(f, cur.value);
    var items := ListDirectory(scanOf(cur.value));
    if items.None? {
      return ServerError;
    }
    resp := Rendered(Page(cur.value, parent, items.value, HostRoots(h)));
  }

  /** With no `default_root` configured, the FTP and WebDAV services are
      rooted at `/` on a non-Windows host and at `C:\` on Windows without
      the drive API. */
  lemma DefaultServiceRoot(config: map<string, Value>, h: Host)
    requires "default_root" !in config
    requires !(h.platform.Windows? && h.driveApi.Loaded?)
    ensures ServiceRoot(LoadSettings(config), HostRoots(h)) ==
              Some(Str(if h.platform.Windows? then "C:\\" else "/"))
  {
  }
}
