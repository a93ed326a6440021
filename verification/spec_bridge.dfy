/** The bridge between dependency ids and specifiers: `HydrateTuple`
    turns a tuple into the request it makes of the specifier parser, and
    `GetTuple` turns a resolved specifier and its manifest back into a
    tuple. The specifier parser itself is not part of this model: the
    values it would return enter as the function parameter `parse`. */
module SpecBridge {
  import opened Wrappers
  import opened Strings
  import opened DepId

  /** Named registries from the specifier options, in the order
      `Object.entries` lists them: alias and registry URL. */
  type Registries = seq<(string, string)>

  /** `registries[alias]`: JavaScript object keys are unique, so the first
      entry with that key is the only one. */
  function LookupRegistry(regs: Registries, alias: string): (r: Option<string>)
    ensures r.Some? ==> exists i :: 0 <= i < |regs| && regs[i] == (alias, r.value)
    ensures r.None? <==> forall i :: 0 <= i < |regs| ==> regs[i].0 != alias
    decreases |regs|
  {
    if regs == [] then None
    else if regs[0].0 == alias then Some(regs[0].1)
    else LookupRegistry(regs[1..], alias)
  }

  /** The first alias whose registry URL is `host`. */
  function FindAlias(regs: Registries, host: string): (r: Option<string>)
    ensures r.Some? ==> exists i :: 0 <= i < |regs| && regs[i] == (r.value, host)
    ensures r.None? <==> forall i :: 0 <= i < |regs| ==> regs[i].1 != host
    decreases |regs|
  {
    if regs == [] then None
    else if regs[0].1 == host then Some(regs[0].0)
    else FindAlias(regs[1..], host)
  }

  /** JavaScript truthiness of an optional string. */
  predicate Truthy(s: Option<string>) {
    s.Some? && s.value != []
  }

  datatype SpecType = RegistrySpec | GitSpec | FileSpec | RemoteSpec | WorkspaceSpec

  /** The fields of a parsed specifier the bridge reads. `subspec` is the
      specifier an alias (`name@npm:other@1`) or protocol wraps. */
  datatype Spec = Spec(
    name: string,
    specType: SpecType,
    bareSpec: string,
    subspec: Option<Spec>,
    registry: Option<string>,
    namedRegistry: Option<string>,
    namedGitHost: Option<string>,
    namedGitHostPath: Option<string>,
    gitRemote: Option<string>,
    gitSelector: Option<string>,
    remoteURL: Option<string>,
    registries: Registries)

  /** `spec.final`: the innermost wrapped specifier. */
  function Final(s: Spec): (f: Spec)
    ensures f.subspec.None?
    ensures s.subspec.None? ==> f == s
    decreases s
  {
    match s.subspec
    case Some(sub) => Final(sub)
    case None => s
  }

  /** A call of the specifier parser: `Spec.parse(spec)` or
      `Spec.parse(name, bareSpec)`, the latter with or without the
      specifier options. */
  datatype ParseRequest =
    | ParseFull(spec: string)
    | ParseNamed(name: string, bareSpec: string, withOptions: bool)

  datatype HydrateError =
    | BadId(cause: DepIdError)
    | NoRemoteUrl(found: DepIdTuple)
    | NoFilePath(found: DepIdTuple)
    | NoRegistrySpec(found: DepIdTuple)
    | NamedRegistryNotFound(registryName: string, found: DepIdTuple)
    | NoGitRemote(found: DepIdTuple)
    | NoWorkspacePath(found: DepIdTuple)

  const Unknown: string := "(unknown)"

  predicate IsHttpUrl(s: string) {
    StartsWith(s, "http://") || StartsWith(s, "https://")
  }

  /** The conditions under which hydrating a tuple fails. */
  predicate Incomplete(t: DepIdTuple, regs: Registries) {
    match t
    case Remote(url, _) => url == []
    case File(path, _) => path == []
    case Registry(reg, spec, _) =>
      || spec == []
      || (reg != [] && !IsHttpUrl(reg) && reg != "npm" && !Truthy(LookupRegistry(regs, reg)))
    case Git(remote, _, _) => remote == []
    case Workspace(path, _) => path == []
  }

  /** The parser request that turns a tuple back into a specifier.
      `parse` gives the specifiers of the intermediate requests whose
      names decide the final one. */
  function HydrateTuple(t: DepIdTuple, name: Option<string>, regs: Registries, parse: ParseRequest -> Spec)
    : (r: Result<ParseRequest, HydrateError>)
    ensures r.Failure? <==> Incomplete(t, regs)
    ensures t.Workspace? && r.Success? ==>
      r.value == (if Truthy(name) && name.value != t.workspace
                  then ParseNamed(name.value, "workspace:" + t.workspace + "@*", true)
                  else ParseNamed(t.workspace, "workspace:*", true))
    ensures t.Registry? && t.registry == [] && r.Success? ==>
      r.value == (if Truthy(name) && parse(ParseFull(t.registrySpec)).name != name.value
                  then ParseFull(name.value + "@npm:" + t.registrySpec)
                  else ParseFull(t.registrySpec))
    ensures t.Git? && r.Success? ==> r.value == ParseNamed(name.GetOr(Unknown), t.gitRemote + "#" + t.gitSelector, true)
  {
    match t
    case Remote(first, _) =>
      if first == [] then Failure(NoRemoteUrl(t))
      else Success(ParseNamed(name.GetOr(Unknown), first, false))
    case File(first, _) =>
      if first == [] then Failure(NoFilePath(t))
      else Success(ParseNamed(name.GetOr(Unknown), "file:" + first, true))
    case Registry(first, second, _) =>
      if second == [] then Failure(NoRegistrySpec(t))
      else if first == [] then
        var s := parse(ParseFull(second));
        if Truthy(name) && s.name != name.value then Success(ParseFull(name.value + "@npm:" + second))
        else Success(ParseFull(second))
      else if !IsHttpUrl(first) then
        var reg := LookupRegistry(regs, first);
        if first != "npm" && !Truthy(reg) then Failure(NamedRegistryNotFound(first, t))
        else Success(ParseNamed(name.GetOr(Unknown), first + ":" + second, true))
      else
        var req := ParseNamed(name.GetOr(Unknown), "registry:" + first + "#" + second, true);
        var s := parse(req);
        if Truthy(name) && Final(s).name != name.value then Success(ParseFull(Final(s).name + "@" + s.bareSpec))
        else Success(req)
    case Git(first, second, _) =>
      if first == [] then Failure(NoGitRemote(t))
      else Success(ParseNamed(name.GetOr(Unknown), first + "#" + second, true))
    case Workspace(first, _) =>
      if first == [] then Failure(NoWorkspacePath(t))
      else if Truthy(name) && name.value != first then
        Success(ParseNamed(name.value, "workspace:" + first + "@*", true))
      else Success(ParseNamed(first, "workspace:*", true))
  }

  /** `hydrate`: split the id, then hydrate the tuple. It fails with the
      split's error on an id that does not split, and otherwise exactly
      when the tuple is incomplete. */
  function Hydrate(id: string, name: Option<string>, regs: Registries, parse: ParseRequest -> Spec)
    : (r: Result<ParseRequest, HydrateError>)
    ensures SplitDepID(id).Failure? ==> r == Failure(BadId(SplitDepID(id).error))
    ensures SplitDepID(id).Success? ==> (r.Failure? <==> Incomplete(SplitDepID(id).value, regs))
  {
    match SplitDepID(id)
    case Failure(e) => Failure(BadId(e))
    case Success(t) => HydrateTuple(t, name, regs, parse)
  }

  /** The error with the tuple it reports stripped of its extra field. */
  function ErrorWithoutExtra(e: HydrateError): HydrateError {
    match e
    case BadId(_) => e
    case NoRemoteUrl(t) => NoRemoteUrl(WithoutExtra(t))
    case NoFilePath(t) => NoFilePath(WithoutExtra(t))
    case NoRegistrySpec(t) => NoRegistrySpec(WithoutExtra(t))
    case NamedRegistryNotFound(n, t) => NamedRegistryNotFound(n, WithoutExtra(t))
    case NoGitRemote(t) => NoGitRemote(WithoutExtra(t))
    case NoWorkspacePath(t) => NoWorkspacePath(WithoutExtra(t))
  }

  /** The extra field plays no part in hydration: it only shows in the
      tuple an error reports. */
  lemma HydrateIgnoresExtra(t: DepIdTuple, name: Option<string>, regs: Registries, parse: ParseRequest -> Spec)
    ensures HydrateTuple(t, name, regs, parse).Success? == HydrateTuple(WithoutExtra(t), name, regs, parse).Success?
    ensures HydrateTuple(t, name, regs, parse).Success? ==>
              HydrateTuple(t, name, regs, parse).value == HydrateTuple(WithoutExtra(t), name, regs, parse).value
    ensures HydrateTuple(t, name, regs, parse).Failure? ==>
              HydrateTuple(WithoutExtra(t), name, regs, parse).error == ErrorWithoutExtra(HydrateTuple(t, name, regs, parse).error)
  {
  }

  /** Hydrating a joined id is hydrating the tuple it was joined from. */
  lemma HydrateJoined(t: DepIdTuple, name: Option<string>, regs: Registries, parse: ParseRequest -> Spec)
    ensures Hydrate(JoinDepIDTuple(t), name, regs, parse).Success? == HydrateTuple(t, name, regs, parse).Success?
    ensures Hydrate(JoinDepIDTuple(t), name, regs, parse).Success? ==>
              Hydrate(JoinDepIDTuple(t), name, regs, parse).value == HydrateTuple(t, name, regs, parse).value
  {
    SplitJoinRoundTrip(t);
    HydrateIgnoresExtra(t, name, regs, parse);
    HydrateIgnoresExtra(Canonical(t), name, regs, parse);
    assert WithoutExtra(Canonical(t)) == WithoutExtra(t);
  }

  // ---------------------------------------------------------------------
  // From a resolved specifier back to a tuple

  const DefaultRegistry: string := "https://registry.npmjs.org"

  /** The default registry is stored as the empty string. */
  function OmitDefReg(s: Option<string>): (r: string)
    ensures r == [] <==> (s.None? || s.value in {"", DefaultRegistry, DefaultRegistry + "/"})
    ensures r != [] ==> s == Some(r)
  {
    if !Truthy(s) || s.value == DefaultRegistry || s.value == DefaultRegistry + "/" then "" else s.value
  }

  lemma OmitDefRegIdempotent(s: Option<string>)
    ensures OmitDefReg(Some(OmitDefReg(s))) == OmitDefReg(s)
  {
  }

  /** The fields of a fetched manifest the bridge reads. */
  datatype Manifest = Manifest(name: Option<string>, version: Option<string>)

  /** A manifest version without one leading `v`. */
  function StripV(v: string): (r: string)
    ensures StartsWith(v, "v") ==> v == "v" + r
    ensures !StartsWith(v, "v") ==> r == v
  {
    if StartsWith(v, "v") then v[1..] else v
  }

  /** A registry specifier names a package the manifest does not: the
      stored name must then be the specifier's own. */
  predicate IsPackageNameConfused(spec: Option<Spec>, name: Option<string>) {
    && spec.Some?
    && spec.value.name != []
    && spec.value.subspec.None?
    && spec.value.specType == RegistrySpec
    && Some(spec.value.name) != name
  }

  datatype TupleError =
    | NoGitHost(spec: Spec)
    | NamedGitHostWithoutPath(spec: Spec)
    | NoRemoteURL(spec: Spec)
    | PathBasedUnsupported(spec: Spec)

  /** The registry field of a registry tuple: the named registry, else an
      alias whose URL is the registry's, else the registry URL (empty for
      the default registry). */
  function RegistryField(spec: Spec): string {
    var f := Final(spec);
    var reg := OmitDefReg(f.registry);
    var named :=
      if !Truthy(f.namedRegistry) && reg != [] then
        match FindAlias(spec.registries, reg)
        case Some(alias) => Some(alias)
        case None => f.namedRegistry
      else f.namedRegistry;
    named.GetOr(reg)
  }

  /** The version part of a registry tuple. */
  function VersionField(spec: Spec, mani: Manifest): string {
    if Truthy(mani.version) then StripV(mani.version.value) else Final(spec).bareSpec
  }

  /** The name part of a registry tuple. */
  function NameField(spec: Spec, mani: Manifest): string {
    if IsPackageNameConfused(Some(spec), mani.name) then spec.name else mani.name.GetOr(Final(spec).name)
  }

  function GetTuple(spec: Spec, mani: Manifest, extra: Option<string>): (r: Result<DepIdTuple, TupleError>)
    ensures r.Success? ==> r.value.extra == extra
    ensures r.Success? ==> TypeName(r.value) != "file" && TypeName(r.value) != "workspace"
    ensures Final(spec).specType in {FileSpec, WorkspaceSpec} ==> r == Failure(PathBasedUnsupported(spec))
    ensures Final(spec).specType == GitSpec ==>
              (r.Failure? <==> (!Truthy(Final(spec).gitRemote)
                                || (Truthy(Final(spec).namedGitHost) && !Truthy(Final(spec).namedGitHostPath))))
    ensures Final(spec).specType == RemoteSpec ==> (r.Failure? <==> !Truthy(Final(spec).remoteURL))
    ensures Final(spec).specType == RegistrySpec ==> r.Success?
    ensures Final(spec).specType == RegistrySpec ==>
              r.value == Registry(RegistryField(spec), NameField(spec, mani) + "@" + VersionField(spec, mani), extra)
    ensures Final(spec).specType == GitSpec && r.Success? ==>
              && r.value.Git?
              && r.value.gitSelector == Final(spec).gitSelector.GetOr("")
              && r.value.gitRemote == (if Truthy(Final(spec).namedGitHost)
                                       then Final(spec).namedGitHost.value + ":" + Final(spec).namedGitHostPath.value
                                       else Final(spec).gitRemote.value)
    ensures Final(spec).specType == RemoteSpec && r.Success? ==> r.value == Remote(Final(spec).remoteURL.value, extra)
  {
    var f := Final(spec);
    match f.specType
    case RegistrySpec =>
      Success(Registry(RegistryField(spec), NameField(spec, mani) + "@" + VersionField(spec, mani), extra))
    case GitSpec =>
      var gitSelector := f.gitSelector.GetOr("");
      if !Truthy(f.gitRemote) then Failure(NoGitHost(spec))
      else if Truthy(f.namedGitHost) then
        if !Truthy(f.namedGitHostPath) then Failure(NamedGitHostWithoutPath(spec))
        else Success(Git(f.namedGitHost.value + ":" + f.namedGitHostPath.value, gitSelector, extra))
      else Success(Git(f.gitRemote.value, gitSelector, extra))
    case RemoteSpec =>
      if !Truthy(f.remoteURL) then Failure(NoRemoteURL(spec))
      else Success(Remote(f.remoteURL.value, extra))
    case FileSpec => Failure(PathBasedUnsupported(spec))
    case WorkspaceSpec => Failure(PathBasedUnsupported(spec))
  }

  /** `getId`: the id of a resolved specifier. It fails exactly when
      `GetTuple` does, with the same error, and is always well formed. */
  function GetId(spec: Spec, mani: Manifest, extra: Option<string>): (r: Result<string, TupleError>)
    ensures r.Success? <==> GetTuple(spec, mani, extra).Success?
    ensures r.Failure? ==> r.error == GetTuple(spec, mani, extra).error
    ensures r.Success? ==> IsDepID(r.value)
  {
    var t :- GetTuple(spec, mani, extra);
    JoinIsDepID(t);
    Success(JoinDepIDTuple(t))
  }

  /** A registry specifier that wraps nothing and has a name is stored
      under that name, whatever name the manifest declares. */
  lemma RegistryNameIsSpecName(spec: Spec, mani: Manifest, extra: Option<string>)
    requires spec.specType == RegistrySpec && spec.subspec.None? && spec.name != []
    ensures GetTuple(spec, mani, extra) == Success(Registry(RegistryField(spec), spec.name + "@" + VersionField(spec, mani), extra))
  {
  }

  /** Where the name and version a registry tuple stores come from: the
      name is the specifier's own when the manifest's name is confused,
      else the manifest's, else the final specifier's; the version is the
      manifest's with one leading `v` dropped, else the final specifier's
      bare spec. This holds for aliased specifiers too. */
  lemma RegistryTupleSource(spec: Spec, mani: Manifest, extra: Option<string>)
    requires Final(spec).specType == RegistrySpec
    ensures var t := GetTuple(spec, mani, extra).value;
            var name := if IsPackageNameConfused(Some(spec), mani.name) then spec.name
                        else mani.name.GetOr(Final(spec).name);
            && t.Registry?
            && t.registry == RegistryField(spec)
            && (Truthy(mani.version) && StartsWith(mani.version.value, "v") ==>
                  t.registrySpec == name + "@" + mani.version.value[1..])
            && (Truthy(mani.version) && !StartsWith(mani.version.value, "v") ==>
                  t.registrySpec == name + "@" + mani.version.value)
            && (!Truthy(mani.version) ==> t.registrySpec == name + "@" + Final(spec).bareSpec)
  {
  }

  /** The manifest's declared name is replaced only when the name is
      confused, and then by the specifier's own name. */
  lemma ConfusedNameReplaced(spec: Spec, mani: Manifest, extra: Option<string>)
    requires Final(spec).specType == RegistrySpec && mani.name.Some?
    ensures IsPackageNameConfused(Some(spec), mani.name) ==>
              && spec.name != mani.name.value
              && GetTuple(spec, mani, extra).value.registrySpec == spec.name + "@" + VersionField(spec, mani)
    ensures GetTuple(spec, mani, extra).value.registrySpec != mani.name.value + "@" + VersionField(spec, mani) ==>
              IsPackageNameConfused(Some(spec), mani.name)
  {
  }

  /** The registry field is the default registry's empty string only when
      no alias or named registry applies. */
  lemma RegistryFieldDefault(spec: Spec)
    requires Final(spec).namedRegistry.None?
    requires OmitDefReg(Final(spec).registry) == []
    ensures RegistryField(spec) == []
  {
  }

  /** A registry URL that matches a configured alias is stored as that
      alias. */
  lemma RegistryFieldAlias(spec: Spec, i: int)
    requires !Truthy(Final(spec).namedRegistry)
    requires 0 <= i < |spec.registries|
    requires spec.registries[i].1 == OmitDefReg(Final(spec).registry) != []
    ensures exists j :: 0 <= j <= i && RegistryField(spec) == spec.registries[j].0
                        && spec.registries[j].1 == spec.registries[i].1
  {
    var reg := OmitDefReg(Final(spec).registry);
    FindAliasFirst(spec.registries, reg, i);
  }

  lemma {:induction false} FindAliasFirst(regs: Registries, host: string, i: int)
    requires 0 <= i < |regs| && regs[i].1 == host
    ensures FindAlias(regs, host).Some?
    ensures exists j :: 0 <= j <= i && FindAlias(regs, host).value == regs[j].0 && regs[j].1 == host
    decreases |regs|
  {
    if regs[0].1 != host {
      FindAliasFirst(regs[1..], host, i - 1);
      var j :| 0 <= j <= i - 1 && FindAlias(regs[1..], host).value == regs[1..][j].0 && regs[1..][j].1 == host;
      assert regs[j + 1] == regs[1..][j];
    }
  }

  /** Every id `GetId` produces splits back into the tuple `GetTuple`
      computed, with an empty extra read back as absent. */
  lemma GetIdSplits(spec: Spec, mani: Manifest, extra: Option<string>)
    requires GetId(spec, mani, extra).Success?
    ensures SplitDepID(GetId(spec, mani, extra).value) == Success(Canonical(GetTuple(spec, mani, extra).value))
    ensures extra != Some([]) ==> SplitDepID(GetId(spec, mani, extra).value) == Success(GetTuple(spec, mani, extra).value)
  {
    var t := GetTuple(spec, mani, extra).value;
    SplitJoinRoundTrip(t);
  }
}
