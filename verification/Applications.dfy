/** pkg/controller/application: deploying an Application through Rancher. What Rancher
    answers and the process environment are parameters. */
module Applications {
  import opened Wrappers
  import opened ExternalId

  type Answers = map<string, string>

  /** `parameters` is None for a nil map. */
  datatype ApplicationSpec = ApplicationSpec(
    name: string, version: string, cluster: string, project: string,
    targetNamespace: string, parameters: Option<Answers>)

  datatype ApplicationStatus = ApplicationStatus(phase: string, error: string)

  datatype Application = Application(spec: ApplicationSpec, status: ApplicationStatus)

  datatype Settings = Settings(
    platform: string, region: string,
    alertUrl: string, alertUser: string, alertPassword: string, alertInfra: string, backupEnv: string)

  datatype RancherItem = RancherItem(name: string, id: string, state: string)

  /** `foreign` is the version that url.Parse and Query find in an external ID which does
      not have the form the operator posts; None when it does not parse. */
  datatype RancherApp = RancherApp(name: string, externalId: string, answers: Option<Answers>, foreign: Option<string>)

  /** One reconcile's worth of replies; None stands for a failed request. */
  datatype Replies = Replies(
    clusters: Option<seq<RancherItem>>, projects: Option<seq<RancherItem>>, apps: Option<seq<RancherApp>>,
    moveAccepted: bool, postAccepted: bool)

  /** The body of an install or upgrade request. */
  datatype Post = Post(
    install: bool, name: string, projectId: string, externalId: string, targetNamespace: string, answers: Answers)

  datatype AppItem = AppItem(name: string, version: string, answers: Option<Answers>)

  /* ---- answers ---- */

  function StorageClass(s: Settings): Option<Answers> {
    if s.platform != "openstack" then None
    else
      var values := map[
        "automium.storageClass.provisioner" := "kubernetes.io/cinder",
        "automium.storageClass.parameters.\"type\"" := "Top"];
      Some(if s.region == "" then values else values["automium.storageClass.parameters.\"availability\"" := s.region])
  }

  const ALERTMANAGERS := "prometheus.serverFiles.prometheus\\.yml.alerting.alertmanagers[0]."

  function DefaultAnswers(spec: ApplicationSpec, s: Settings): Option<Answers> {
    if spec.name == "automium-monitoring" then
      match StorageClass(s)
      case None => None
      case Some(storage) => Some(map[
        "prometheus.server.persistentVolume.storageClass" := "automium-monitoring-sc",
        "grafana.persistence.storageClassName" := "automium-monitoring-sc",
        ALERTMANAGERS + "static_configs[0].targets[0]" := s.alertUrl,
        ALERTMANAGERS + "basic_auth.username" := s.alertUser,
        ALERTMANAGERS + "basic_auth.password" := s.alertPassword,
        ALERTMANAGERS + "scheme" := "https",
        "prometheus.server.global.external_labels.infraName" := s.alertInfra] + storage)
    else if spec.name == "automium-backup" then
      Some(map[
        "clusterName" := spec.cluster,
        "backupEnv" := s.backupEnv,
        "backupRepository" := "swift:automium:/cluster-backups/" + spec.cluster])
    else Some(map[])
  }

  function Entries(parameters: Option<Answers>): Answers {
    match parameters case None => map[] case Some(m) => m
  }

  /** The defaults, overridden by the parameters; None for an unsupported platform. */
  function AnswersFor(spec: ApplicationSpec, s: Settings): Option<Answers> {
    match DefaultAnswers(spec, s)
    case None => None
    case Some(defaults) => Some(defaults + Entries(spec.parameters))
  }

  method BuildAppAnswers(spec: ApplicationSpec, s: Settings) returns (answers: Option<Answers>)
    ensures answers == AnswersFor(spec, s)
  {
    hide DefaultAnswers;
    var defaults := DefaultAnswers(spec, s);
    if defaults.None? {
      return None;
    }
    var appAnswers := defaults.value;
    var parameters := Entries(spec.parameters);
    var keys := parameters.Keys;
    while keys != {}
      invariant keys <= parameters.Keys
      invariant appAnswers == defaults.value + (parameters - keys)
      decreases keys
    {
      var k :| k in keys;
      appAnswers := appAnswers[k := parameters[k]];
      keys := keys - {k};
    }
    assert parameters - {} == parameters;
    return Some(appAnswers);
  }

  /* ---- looking at Rancher ---- */

  function ActiveCluster(items: seq<RancherItem>, name: string): Option<string> {
    if items == [] then None
    else if items[0].name == name && items[0].state == "active" then Some(items[0].id)
    else ActiveCluster(items[1..], name)
  }

  function Project(items: seq<RancherItem>, name: string): Option<string> {
    if items == [] then None
    else if items[0].name == name then Some(items[0].id)
    else Project(items[1..], name)
  }

  function VersionIn(app: RancherApp): Option<string> {
    if HEAD <= app.externalId then ParsedVersion(app.externalId) else app.foreign
  }

  /** Every app with the version its external ID carries; None if one does not parse. */
  function ParsedApps(apps: seq<RancherApp>): (r: Option<seq<AppItem>>)
    ensures r.Some? ==> |r.value| == |apps|
  {
    if apps == [] then Some([])
    else
      var init, last := apps[..|apps| - 1], apps[|apps| - 1];
      match (ParsedApps(init), VersionIn(last))
      case (Some(items), Some(version)) => Some(items + [AppItem(last.name, version, last.answers)])
      case _ => None
  }

  lemma {:induction false} ParsedAppsAt(apps: seq<RancherApp>, i: nat)
    requires i < |apps|
    ensures VersionIn(apps[i]).None? ==> ParsedApps(apps).None?
    ensures ParsedApps(apps).Some? ==>
      VersionIn(apps[i]).Some? &&
      ParsedApps(apps).value[i] == AppItem(apps[i].name, VersionIn(apps[i]).value, apps[i].answers)
  {
    hide VersionIn;
    if i < |apps| - 1 {
      ParsedAppsAt(apps[..|apps| - 1], i);
    }
  }

  lemma {:induction false} AllParsed(apps: seq<RancherApp>)
    requires forall i | 0 <= i < |apps| :: VersionIn(apps[i]).Some?
    ensures ParsedApps(apps).Some?
  {
    hide VersionIn;
    if apps != [] {
      AllParsed(apps[..|apps| - 1]);
    }
  }

  lemma {:induction false} NotParsed(apps: seq<RancherApp>, i: nat)
    requires i <= |apps| && ParsedApps(apps[..i]).None?
    ensures ParsedApps(apps).None?
    decreases |apps|
  {
    hide VersionIn;
    if i == |apps| {
      assert apps[..i] == apps;
    } else {
      assert apps[..|apps| - 1][..i] == apps[..i];
      NotParsed(apps[..|apps| - 1], i);
    }
  }

  method GetRancherAppsFromProject(apps: seq<RancherApp>) returns (list: Option<seq<AppItem>>)
    ensures list == ParsedApps(apps)
  {
    hide VersionIn;
    var finalAppList: seq<AppItem> := [];
    for i := 0 to |apps|
      invariant ParsedApps(apps[..i]) == Some(finalAppList)
    {
      assert apps[..i + 1][..i] == apps[..i];
      var version := VersionIn(apps[i]);
      if version.None? {
        NotParsed(apps, i + 1);
        return None;
      }
      finalAppList := finalAppList + [AppItem(apps[i].name, version.value, apps[i].answers)];
    }
    assert apps[..|apps|] == apps;
    return Some(finalAppList);
  }

  const ABSENT := AppItem("does-not-exist", "", None)

  /** The first app with the wanted name, or the placeholder. */
  function TargetApp(items: seq<AppItem>, name: string): AppItem {
    if items == [] then ABSENT else if items[0].name == name then items[0] else TargetApp(items[1..], name)
  }

  lemma {:induction false} TargetAppAt(items: seq<AppItem>, name: string, i: nat)
    requires i < |items| && items[i].name == name && forall j | 0 <= j < i :: items[j].name != name
    ensures TargetApp(items, name) == items[i]
  {
    if items[0].name != name {
      TargetAppAt(items[1..], name, i - 1);
    }
  }

  /* ---- one reconcile ---- */

  datatype Verdict = Refused | Crashed | UpToDate | Deployed

  predicate HasColon(s: string) {
    exists i :: 0 <= i < |s| && s[i] == ':'
  }

  function PostFor(spec: ApplicationSpec, projectId: string, answers: Answers, install: bool): Post {
    Post(install, spec.name, projectId, Format(spec.name, spec.version), spec.targetNamespace, answers)
  }

  /** What is sent, and what comes of it. Splitting a project ID without a colon crashes an
      upgrade before anything is sent. */
  function Deploy(
    spec: ApplicationSpec, projectId: string, s: Settings, w: Replies, install: bool): (seq<Post>, Verdict) {
    match AnswersFor(spec, s)
    case None => ([], Refused)
    case Some(answers) =>
      if install && !w.moveAccepted then ([], Refused)
      else if !install && !HasColon(projectId) then ([], Crashed)
      else ([PostFor(spec, projectId, answers, install)], if w.postAccepted then Deployed else Refused)
  }

  /** The decision on the app list: None when it is up to date, else whether to install. */
  function Decision(spec: ApplicationSpec, items: seq<AppItem>, answers: Answers): Option<bool> {
    var target := TargetApp(items, spec.name);
    if target.name != spec.name then Some(true)
    else if target.version != spec.version || target.answers != Some(answers) then Some(false)
    else None
  }

  function ProjectOf(spec: ApplicationSpec, w: Replies): Option<string> {
    if w.clusters.None? || ActiveCluster(w.clusters.value, spec.cluster).None? || w.projects.None? then None
    else Project(w.projects.value, spec.project)
  }

  /** The requests a reconcile sends and its verdict. */
  function ReconcileApp(spec: ApplicationSpec, s: Settings, w: Replies): (seq<Post>, Verdict)
  {
    if ProjectOf(spec, w).None? || w.apps.None? || ParsedApps(w.apps.value).None? then ([], Refused)
    else
      var projectId, items := ProjectOf(spec, w).value, ParsedApps(w.apps.value).value;
      if TargetApp(items, spec.name).name == spec.name then
        match AnswersFor(spec, s)
        case None => ([], Refused)
        case Some(answers) =>
          if Decision(spec, items, answers) == None then ([], UpToDate) else Deploy(spec, projectId, s, w, false)
      else Deploy(spec, projectId, s, w, true)
  }

  /** Rancher lists, as the first app of this name, what was posted; the other apps parse. */
  predicate Reports(w: Replies, post: Post, i: nat) {
    && w.apps.Some? && i < |w.apps.value|
    && var app := w.apps.value[i];
    && app.name == post.name && app.externalId == post.externalId && app.answers == Some(post.answers)
    && (forall j | 0 <= j < i :: w.apps.value[j].name != post.name)
    && (forall j | 0 <= j < |w.apps.value| && j != i :: VersionIn(w.apps.value[j]).Some?)
  }

  /** What the reconcile after a deployment does: an unreadable ID refuses it, a version
      that is read back as it was printed leaves nothing to do, and any other is posted
      again, on a project ID with a colon. */
  function AfterDeployment(
    spec: ApplicationSpec, projectId: string, answers: Answers, w: Replies): (seq<Post>, Verdict)
  {
    if !UrlParses(Tail(spec.name, spec.version)) then ([], Refused)
    else if Survives(spec.name, spec.version) then ([], UpToDate)
    else if !HasColon(projectId) then ([], Crashed)
    else ([PostFor(spec, projectId, answers, false)], if w.postAccepted then Deployed else Refused)
  }

  /** One unreadable ID refuses every Application of its project. */
  lemma UnreadableBlocksProject(w: Replies, i: nat)
    requires w.apps.Some? && i < |w.apps.value| && VersionIn(w.apps.value[i]).None?
    ensures forall spec, s :: ReconcileApp(spec, s, w) == ([], Refused)
  {
    hide VersionIn;
    ParsedAppsAt(w.apps.value, i);
  }

  /** After a successful install or upgrade that Rancher reports back, the next reconcile
      is up to date exactly when the version survives beside the name, is refused without
      a request, together with all others of the project, exactly when the ID cannot be
      parsed, and deploys again otherwise. */
  lemma DeployedIsUpToDateIff(spec: ApplicationSpec, s: Settings, w: Replies, w': Replies, i: nat)
    requires ReconcileApp(spec, s, w).1 == Deployed
    requires var posts := ReconcileApp(spec, s, w).0; |posts| == 1 && Reports(w', posts[0], i)
    requires ProjectOf(spec, w').Some?
    ensures AnswersFor(spec, s).Some?
    ensures ReconcileApp(spec, s, w') == AfterDeployment(spec, ProjectOf(spec, w').value, AnswersFor(spec, s).value, w')
    ensures ReconcileApp(spec, s, w').1 == UpToDate <==> Survives(spec.name, spec.version)
    ensures !UrlParses(Tail(spec.name, spec.version)) ==> forall other, t :: ReconcileApp(other, t, w') == ([], Refused)
  {
    hide DefaultAnswers, ParsedVersion, Safe, HEAD, QueryOf, ActiveCluster, Project, HasColon, UrlParses, Tail,
      Survives;
    var post := ReconcileApp(spec, s, w).0[0];
    assert AnswersFor(spec, s).Some?;
    assert post.externalId == Format(spec.name, spec.version) && post.name == spec.name;
    VersionRoundTripIff(spec.name, spec.version);
    var apps := w'.apps.value;
    ParsedAppsAt(apps, i);
    if ParsedVersion(post.externalId).Some? {
      AllParsed(apps);
      var items := ParsedApps(apps).value;
      forall j | 0 <= j < i ensures items[j].name != spec.name {
        ParsedAppsAt(apps, j);
      }
      TargetAppAt(items, spec.name, i);
    } else {
      UnreadableBlocksProject(w', i);
    }
  }

  /* ---- what a reconcile stands for ---- */

  /** The cluster of this name is active, and `id` is the first project of this name in it. */
  ghost predicate IsProject(id: string, spec: ApplicationSpec, w: Replies) {
    && w.clusters.Some? && (exists c :: c in w.clusters.value && c.name == spec.cluster && c.state == "active")
    && w.projects.Some? && IsFirstProject(id, spec.project, w.projects.value)
  }

  ghost predicate IsFirstProject(id: string, name: string, items: seq<RancherItem>) {
    exists i :: 0 <= i < |items| && items[i].name == name && items[i].id == id && NoneNamed(items[..i], name)
  }

  ghost predicate NoneNamed(items: seq<RancherItem>, name: string) {
    forall p | p in items :: p.name != name
  }

  lemma {:induction false} ActiveClusterMeans(items: seq<RancherItem>, name: string)
    ensures ActiveCluster(items, name).Some? <==> exists c :: c in items && c.name == name && c.state == "active"
  {
    if items != [] {
      ActiveClusterMeans(items[1..], name);
      assert forall c :: c in items <==> c == items[0] || c in items[1..];
    }
  }

  lemma {:induction false} ProjectMeans(items: seq<RancherItem>, name: string)
    ensures Project(items, name).Some? ==> IsFirstProject(Project(items, name).value, name, items)
    ensures Project(items, name).None? <==> NoneNamed(items, name)
  {
    if items != [] {
      assert items[..0] == [];
      if items[0].name == name {
        assert IsFirstProject(items[0].id, name, items);
      } else {
        ProjectMeans(items[1..], name);
        assert forall c :: c in items <==> c == items[0] || c in items[1..];
        if Project(items[1..], name).Some? {
          var id := Project(items[1..], name).value;
          var i :| 0 <= i < |items[1..]| && items[1..][i].name == name && items[1..][i].id == id
            && NoneNamed(items[1..][..i], name);
          assert items[..i + 1] == [items[0]] + items[1..][..i];
          assert items[i + 1].id == id && NoneNamed(items[..i + 1], name);
        }
      }
    }
  }

  lemma ProjectOfMeans(spec: ApplicationSpec, w: Replies)
    ensures ProjectOf(spec, w).Some? ==> IsProject(ProjectOf(spec, w).value, spec, w)
    ensures ProjectOf(spec, w).None? ==> forall id :: !IsProject(id, spec, w)
  {
    hide ActiveCluster, Project;
    if w.clusters.Some? {
      ActiveClusterMeans(w.clusters.value, spec.cluster);
    }
    if w.projects.Some? {
      ProjectMeans(w.projects.value, spec.project);
      if Project(w.projects.value, spec.project).None? {
        NoFirstProject(w.projects.value, spec.project);
      }
    }
  }

  lemma NoFirstProject(items: seq<RancherItem>, name: string)
    requires NoneNamed(items, name)
    ensures forall id :: !IsFirstProject(id, name, items)
  {
  }

  ghost predicate Says(answers: Answers, key: string, value: string) {
    key in answers && answers[key] == value
  }

  /** The answers of a deployment: each parameter with its value, and under every other key
      the default for the application: the repository of the cluster for a backup, what
      the platform needs for monitoring, none else. */
  ghost predicate AreAnswers(answers: Answers, spec: ApplicationSpec, s: Settings) {
    && (forall k | k in Entries(spec.parameters) :: Says(answers, k, Entries(spec.parameters)[k]))
    && forall k | k !in Entries(spec.parameters) ::
         if spec.name == "automium-backup" then
           if k == "clusterName" then Says(answers, k, spec.cluster)
           else if k == "backupEnv" then Says(answers, k, s.backupEnv)
           else if k == "backupRepository" then Says(answers, k, "swift:automium:/cluster-backups/" + spec.cluster)
           else k !in answers
         else spec.name != "automium-monitoring" ==> k !in answers
  }

  lemma AnswersMean(spec: ApplicationSpec, s: Settings)
    ensures AnswersFor(spec, s).Some? ==> AreAnswers(AnswersFor(spec, s).value, spec, s)
    ensures AnswersFor(spec, s).None? <==> spec.name == "automium-monitoring" && s.platform != "openstack"
  {
    assert "automium-backup"[9] != "automium-monitoring"[9];
    assert "clusterName"[0] != "backupEnv"[0] && "backupEnv"[6] != "backupRepository"[6];
  }

  /** The first listed app with the wanted name. */
  ghost predicate IsTarget(apps: seq<RancherApp>, i: nat, name: string) {
    i < |apps| && apps[i].name == name && forall j | 0 <= j < i :: apps[j].name != name
  }

  /** A reconcile finds nothing to do exactly if cluster, project and apps can be read, the
      ID of every app parses, and the first app with the name carries the version and
      exactly the answers that a deployment would post. */
  lemma UpToDateIff(spec: ApplicationSpec, s: Settings, w: Replies)
    ensures ReconcileApp(spec, s, w).1 == UpToDate <==>
      && (exists id :: IsProject(id, spec, w))
      && w.apps.Some? && (forall app | app in w.apps.value :: VersionIn(app).Some?)
      && AnswersFor(spec, s).Some?
      && exists i: nat :: IsTarget(w.apps.value, i, spec.name)
           && VersionIn(w.apps.value[i]) == Some(spec.version)
           && w.apps.value[i].answers == AnswersFor(spec, s)
  {
    hide AnswersFor, VersionIn, ActiveCluster, Project, IsProject, Deploy, ProjectOf;
    ProjectOfMeans(spec, w);
    if ProjectOf(spec, w).Some? && w.apps.Some? {
      var apps := w.apps.value;
      if ParsedApps(apps).None? {
        var i := FirstUnparsed(apps);
      } else {
        forall app | app in apps ensures VersionIn(app).Some? {
          var i :| 0 <= i < |apps| && apps[i] == app;
          ParsedAppsAt(apps, i);
        }
        TargetFound(apps, spec.name);
      }
    }
    DeployIsNoRest(spec, s, w);
  }

  lemma DeployIsNoRest(spec: ApplicationSpec, s: Settings, w: Replies)
    ensures forall projectId, install :: Deploy(spec, projectId, s, w, install).1 != UpToDate
  {
    hide AnswersFor;
  }

  lemma {:induction false} FirstUnparsed(apps: seq<RancherApp>) returns (i: nat)
    requires ParsedApps(apps).None?
    ensures i < |apps| && VersionIn(apps[i]).None?
  {
    hide VersionIn;
    i := |apps| - 1;
    if ParsedApps(apps[..i]).None? {
      i := FirstUnparsed(apps[..i]);
    }
  }

  /** What the search through the parsed list finds, in terms of the listed apps. */
  lemma TargetFound(apps: seq<RancherApp>, name: string)
    requires ParsedApps(apps).Some?
    ensures var target := TargetApp(ParsedApps(apps).value, name);
      && (forall i: nat | IsTarget(apps, i, name) ::
            target.name == name && Some(target.version) == VersionIn(apps[i]) && target.answers == apps[i].answers)
      && ((exists app :: app in apps && app.name == name) ==> exists i: nat :: IsTarget(apps, i, name))
      && (!(exists app :: app in apps && app.name == name) ==> target == ABSENT)
  {
    hide VersionIn, ParsedApps;
    var items := ParsedApps(apps).value;
    forall i | 0 <= i < |apps|
      ensures VersionIn(apps[i]).Some? && items[i] == AppItem(apps[i].name, VersionIn(apps[i]).value, apps[i].answers)
    {
      ParsedAppsAt(apps, i);
    }
    forall i: nat | IsTarget(apps, i, name) ensures TargetApp(items, name) == items[i] {
      TargetAppAt(items, name, i);
    }
    if exists app :: app in apps && app.name == name {
      var i := FirstNamed(apps, name);
    } else {
      forall i | 0 <= i < |items| ensures items[i].name != name {
        assert apps[i] in apps;
      }
      TargetAbsent(items, name);
    }
  }

  lemma {:induction false} FirstNamed(apps: seq<RancherApp>, name: string) returns (i: nat)
    requires exists app :: app in apps && app.name == name
    ensures IsTarget(apps, i, name)
  {
    i := 0;
    if apps[0].name != name {
      assert forall app :: app in apps <==> app == apps[0] || app in apps[1..];
      i := FirstNamed(apps[1..], name);
      i := i + 1;
    }
  }

  lemma {:induction false} TargetAbsent(items: seq<AppItem>, name: string)
    requires forall i | 0 <= i < |items| :: items[i].name != name
    ensures TargetApp(items, name) == ABSENT
  {
    if items != [] {
      TargetAbsent(items[1..], name);
    }
  }

  /** What a reconcile posts: one request at most, an install exactly if no app of the name
      is listed, and then after its namespace was moved, for the project found, with name,
      version, namespace and answers wanted. */
  lemma PostsMean(spec: ApplicationSpec, s: Settings, w: Replies)
    requires ReconcileApp(spec, s, w).0 != []
    ensures |ReconcileApp(spec, s, w).0| == 1
    ensures var post := ReconcileApp(spec, s, w).0[0];
      && IsProject(post.projectId, spec, w) && w.apps.Some?
      && post.name == spec.name && post.targetNamespace == spec.targetNamespace
      && post.externalId == "catalog://?catalog=automium&template=" + spec.name + "&version=" + spec.version
      && AreAnswers(post.answers, spec, s)
      && (spec.name != ABSENT.name ==>
            (post.install <==> !exists app :: app in w.apps.value && app.name == spec.name))
      && (post.install ==> w.moveAccepted) && (!post.install ==> HasColon(post.projectId))
      && (ReconcileApp(spec, s, w).1 == Deployed <==> w.postAccepted)
  {
    hide AnswersFor, AreAnswers, VersionIn, ActiveCluster, Project, IsProject, ParsedApps, HasColon, Format;
    ProjectOfMeans(spec, w);
    AnswersMean(spec, s);
    TargetFound(w.apps.value, spec.name);
    FormatText(spec.name, spec.version);
    if exists app :: app in w.apps.value && app.name == spec.name {
      var i := FirstNamed(w.apps.value, spec.name);
    }
  }

  lemma FormatText(name: string, version: string)
    ensures Format(name, version) == "catalog://?catalog=automium&template=" + name + "&version=" + version
  {
    hide HEAD, CATALOG, VERSION_KEY;
    FixedText();
    Regrouped(HEAD, CATALOG, "template" + "=", name, VERSION_KEY, version);
  }

  lemma FixedText()
    ensures HEAD + CATALOG + "&" + ("template" + "=") == "catalog://?catalog=automium&template="
    ensures "&" + VERSION_KEY == "&version="
  {
  }

  lemma Regrouped(head: string, catalog: string, t: string, name: string, v: string, version: string)
    ensures head + (catalog + "&" + ((t + name) + "&" + (v + version)))
      == (head + catalog + "&" + t) + name + ("&" + v) + version
  {
  }

  /** An edit reaches Rancher: once a deployment is reported back, a spec of the same name
      with another version or other answers is posted as an upgrade with its own version
      and answers, or the controller crashes on a project ID without a colon. */
  lemma EditIsPosted(spec: ApplicationSpec, edited: ApplicationSpec, s: Settings, w: Replies, w': Replies, i: nat)
    requires ReconcileApp(spec, s, w).1 == Deployed
    requires var posts := ReconcileApp(spec, s, w).0; |posts| == 1 && Reports(w', posts[0], i)
    requires UrlParses(Tail(spec.name, spec.version))
    requires edited.name == spec.name && ProjectOf(edited, w').Some? && AnswersFor(edited, s).Some?
    requires AnswersFor(edited, s) != AnswersFor(spec, s)
      || (edited.version != spec.version && Survives(spec.name, spec.version))
    ensures var projectId, r := ProjectOf(edited, w').value, ReconcileApp(edited, s, w');
      if HasColon(projectId) then
        && |r.0| == 1 && r.0[0].name == edited.name && r.0[0].projectId == projectId
        && r.0[0].answers == AnswersFor(edited, s).value && !r.0[0].install
        && r.0[0].externalId == "catalog://?catalog=automium&template=" + edited.name + "&version=" + edited.version
        && (r.1 == Deployed <==> w'.postAccepted)
      else r == ([], Crashed)
  {
    hide AnswersFor, VersionIn, ParsedVersion, ActiveCluster, Project, HEAD, QueryOf, HasColon, UrlParses, Tail,
      Survives, ParsedApps, Format;
    var post := ReconcileApp(spec, s, w).0[0];
    VersionRoundTripIff(spec.name, spec.version);
    FormatText(edited.name, edited.version);
    var apps := w'.apps.value;
    assert VersionIn(apps[i]) == ParsedVersion(Format(spec.name, spec.version)) by { ReportedVersion(apps[i], spec); }
    AllParsed(apps);
    TargetFound(apps, spec.name);
    assert IsTarget(apps, i, spec.name);
  }

  lemma ReportedVersion(app: RancherApp, spec: ApplicationSpec)
    requires app.externalId == Format(spec.name, spec.version)
    ensures VersionIn(app) == ParsedVersion(Format(spec.name, spec.version))
  {
  }

  /* ---- the reconciler ---- */

  class ApplicationReconciler {
    var item: Application
    var posted: seq<Post>

    constructor (item: Application)
      ensures this.item == item && posted == []
    {
      this.item := item;
      posted := [];
    }

    /** Skips the write, error message included, when the phase stays the same. */
    method UpdateStatus(phase: string, errorMsg: string)
      modifies this`item
      ensures old(item).status.phase == phase ==> item == old(item)
      ensures old(item).status.phase != phase ==> item == old(item).(status := ApplicationStatus(phase, errorMsg))
    {
      if item.status.phase == phase {
        return;
      }
      if errorMsg != item.status.error {
        item := item.(status := item.status.(error := errorMsg));
      }
      item := item.(status := item.status.(phase := phase));
    }

    method DeployApplication(projectId: string, s: Settings, w: Replies, newInstallation: bool)
      returns (verdict: Verdict)
      modifies this`posted
      ensures posted == old(posted) + Deploy(item.spec, projectId, s, w, newInstallation).0
      ensures verdict == Deploy(item.spec, projectId, s, w, newInstallation).1
    {
      hide AnswersFor;
      assert posted + [] == posted;
      var answers := BuildAppAnswers(item.spec, s);
      if answers.None? {
        return Refused;
      }
      var installBody := PostFor(item.spec, projectId, answers.value, newInstallation);
      if newInstallation {
        if !w.moveAccepted {
          return Refused;
        }
      } else if !HasColon(projectId) {
        return Crashed;
      }
      posted := posted + [installBody];
      return if w.postAccepted then Deployed else Refused;
    }

    method Reconcile(s: Settings, w: Replies) returns (verdict: Verdict)
      modifies this
      ensures item.spec == old(item.spec)
      ensures posted == old(posted) + ReconcileApp(item.spec, s, w).0
      ensures verdict == ReconcileApp(item.spec, s, w).1
      ensures item.status.phase == match verdict
        case Refused => "Failed"
        case Crashed => "Upgrading"
        case _ => "Deployed"
    {
      hide AnswersFor, Deploy, ActiveCluster, Project, ParsedApps;
      var projectId := ProjectOf(item.spec, w);
      if projectId.None? || w.apps.None? {
        UpdateStatus("Failed", "cannot get the cluster, the project or its apps");
        return Refused;
      }
      var projectApps := GetRancherAppsFromProject(w.apps.value);
      if projectApps.None? {
        UpdateStatus("Failed", "cannot get the apps of the project");
        return Refused;
      }
      var targetApp := ABSENT;
      for i := 0 to |projectApps.value|
        invariant targetApp == ABSENT
        invariant TargetApp(projectApps.value, item.spec.name) == TargetApp(projectApps.value[i..], item.spec.name)
      {
        if projectApps.value[i].name == item.spec.name {
          targetApp := projectApps.value[i];
          break;
        }
      }
      assert targetApp == TargetApp(projectApps.value, item.spec.name);
      if targetApp.name == item.spec.name {
        var desired := BuildAppAnswers(item.spec, s);
        if desired.None? {
          UpdateStatus("Failed", "cannot validate answers");
          return Refused;
        }
        if targetApp.version == item.spec.version && targetApp.answers == Some(desired.value) {
          UpdateStatus("Deployed", "");
          return UpToDate;
        }
        UpdateStatus("Upgrading", "");
        verdict := DeployApplication(projectId.value, s, w, false);
      } else {
        UpdateStatus("Deploying", "");
        verdict := DeployApplication(projectId.value, s, w, true);
      }
      InstallNeverCrashes(item.spec, projectId.value, s, w);
      if verdict == Crashed {
        return;
      }
      if verdict == Refused {
        UpdateStatus("Failed", "cannot deploy");
      } else {
        UpdateStatus("Deployed", "");
      }
    }
  }

  lemma InstallNeverCrashes(spec: ApplicationSpec, projectId: string, s: Settings, w: Replies)
    ensures Deploy(spec, projectId, s, w, true).1 != Crashed
    ensures Deploy(spec, projectId, s, w, false).1 != UpToDate && Deploy(spec, projectId, s, w, true).1 != UpToDate
  {
  }
}
