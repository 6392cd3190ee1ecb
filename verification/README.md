# Automium: a model of the reconcile loops

Automium is a Kubernetes operator. A Service asks for R machines of some application; the
operator turns it into a Module, a provisioning Job and R Node objects, keeps them in step
while the user, the job controller and Consul change the world around them, and, for a
cluster, installs extra applications through Rancher. This project models the two chains
of controllers that do this and proves what they keep, where they end up, and exactly when
they fail to.

## The model

**Service, Module, Job, Node.** `Protocol` is a state machine over the object store. Each
reconcile of the service, module and node controllers is one step; the job controller, the
user and Consul take steps or give answers of their own. What a reconcile cannot control is
an explicit choice: the order of a listing, the order a sort gives to equal keys, the time,
the answer of Consul. `ModuleController`, `NodeController` and `ServiceController` hold the
reconcile methods in the form the operator has them, objects that read and write an API
server call by call with the operator's loops. Each method is proved to perform exactly the
step of the state machine, so what is proved of runs is proved of the methods.

`Interleaving` is a second, finer machine for deletion: every Get, List, Create, Update,
status Update and Delete is a step of its own, updates carry the resource version they were
read with, and any call may fail.

**Extras, Applications, Rancher.** `Extras` models the extras of a Service and the hop of
the monitoring, backup and logging controllers; `Applications` the decision to install or
upgrade; `ExternalId` the query string that carries the version, with Go's `net/url`
written out (version 1.12).

| File | Content |
|---|---|
| Decimal, Sets, Wrappers, Model | decimal text and the sort key of a hostname; finite sets; Option; the stored objects |
| NodeUtils, EnvVars | `pkg/utils/node.go` and `pkg/utils/module.go` |
| NodeSet | object names; growing and marking the nodes of a service |
| ServiceEnv, ModuleLogic | the Module spec; action, job, status and node pass of a module |
| Protocol | the state machine |
| Jobs, Statuses, NodePasses, Completed, ServiceRuns | properties of its steps and finite runs, in terms of what is stored |
| Schedules, Replacements | how often a job is replaced while nothing is asked for |
| Convergence | the node set over finite runs |
| Recovery, Refinement | the indices of a service and the moves on them; every step is such a move |
| FairRuns, Gaps | the node set over infinite fair runs |
| Reachability, Necessity | runs that an unlucky order brings about: the condition for convergence is exact |
| Tied | the same for hostname prefixes with a number in them |
| Instances | concrete states and behaviors for the failing cases |
| Interleaving | deletion, API call by API call |
| Controllers, ModuleController, NodeController, ServiceController | the reconcile methods |
| ExternalId, Applications, Extras | the extras chain |

## Where the code differs from what it says or seems to promise

The model follows the code.

- The comment of `SortNodesByNumber` promises an order by the final number. The code takes
  the first run of digits of the hostname. `KeyIsIndexIff`: the two agree for every index
  exactly when the prefix has no digit. `TiedVictims`: with a digit in a shared prefix every
  choice of surplus nodes is a possible outcome of the sort. `TiedConvergesIff`: then all fair
  behaviors converge to 0..R-1 if and only if R is zero or no unmarked index is R or more, so
  that an ordinary scale-down can end at the wrong nodes (`NumberedScaleDownCanBeLost`). A
  number that does not fit in an int stops every scale-down (`OverflowNeverMarksIff`).
- `GetNodesCount` counts nodes whose ID is still empty, `NodeExists` does not. A pass that
  grows the service past R therefore turns a due upgrade into a deploy, and the job that was
  just validated is replaced: `NoChurnIff` and `ValidatedJobStillMatchesIff` give the
  condition, `PassTurnsUpgradeIntoDeploy` a state.
- So with spec and node statuses fixed a job can be replaced twice.
  `AtMostOneReplacementIff`: it happens in some run exactly if, for a module with a service
  name, the order of listings matters to the action, or if the nodes can grow past R while an upgrade is due and the stored job
  is not that upgrade. Never more often than twice when the order does not matter
  (`AtMostTwoReplacements`).
- Missing indices are only created while there are fewer than R nodes. `ConvergesIff`: from
  an unmarked node set, fair scheduling leads to the nodes 0..R-1 if and only if there were
  fewer than R nodes or all indices below R existed. With the indices 0, 1, 3, 4 and R = 4
  the gap stays forever (`GapNeverFilled`).
- Marks are never cleared, so scaling down and up again leaves marks below R.
  `ConvergesFromMarksIff` gives the exact condition for marks anywhere: every fair behavior
  converges if and only if no unmarked node is too high; or no low node is marked, and fewer
  than R nodes are unmarked or all low ones exist; or exactly R - 1 nodes are unmarked, and at
  most one of them is high or no marked low node stands beside another marked one that is
  below an unmarked high one. With 0 marked and 7 unmarked, R = 3, an unlucky order ends at a
  gap (`MarkedLowCanBeLost`); with 0 marked and 7 and 8 unmarked none does
  (`MarkedLowCanRecover`).
- `EqualEnvVars` never compares names. It misses a rename (`RenameMissed`) and is not
  reflexive on a list with a conflicting duplicate (`EqualReflexiveIff`), so that such a
  Service rewrites its Module on every reconcile (`ServiceSettlesIff`).
- The phase rule reads the counts stored by the previous reconcile, so one reconcile can
  store a stale Completed. `StatusSettlesInOneIff` says when, `StatusSettles` that the third
  reconcile writes nothing, `QuiescentCompletedIsTruthful` what Completed then means.
- The action is computed against the first healthy node of an unordered list.
  `ActionIsRuleIff`: it is the rule in every order exactly when Consul has named every healthy
  node or no upgrade is due. `OrderMattersIff`: the order changes it exactly when an upgrade is
  due and some but not all healthy nodes have a name. Names always come with the machines that
  Consul reports by name, and then every run follows the rule (`RunsFollowRule`).
- Two services of one application that is not a Kubernetes cluster or node pool have the same
  hostnames (`SharedHostnameIff`, `SameAppSharesHostnames`), so that the lookup which guards
  the deletion of a node finds the machine of the other service.
- A user who gives a non-empty CLUSTER_NAME and after it an empty one gets hostnames without
  a cluster name (`ClusterNameEmptyIff`).
- Beside an ordinary name a version survives the query string exactly when it has no `&`,
  `;`, `#`, `%`, `+` or control character in it (`VersionRoundTripIff`); beside a name that
  ends the query or brings a version of its own at most one version does (`NameOkIff`). With a
  version that does not survive the next reconcile
  (`DeployedIsUpToDateIff`) then posts the same upgrade again, or crashes on a project ID
  without a colon. But if a control character comes before the first `#`, or a malformed
  escape after it, the ID cannot be parsed, and that reconcile and those of all other
  Applications of the project are refused without a request (`UnreadableBlocksProject`).
- The create at the end of the node reconcile never creates anything
  (`FallbackCreateFails`).
- The comment of `getRancherAppsFromProject` describes another function.

## Model

| member | source | states |
|---|---|---|
| Gaps.ConvergesIff | pkg/controller/module/module_controller.go:408-504 | Over infinite fair runs of all controllers with R fixed and digit-free prefixes: an unmarked node set converges to exactly 0..R-1 if and only if it had fewer than R nodes or all of 0..R-1 |
| FairRuns.Converges | pkg/controller/module/module_controller.go:408-504 | From every node set that recovers, with marks anywhere, every fair run of all controllers ends with exactly the nodes 0..R-1 and stays there; what is marked or too high is the decreasing measure |
| Necessity.ConvergesFromMarksIff | pkg/controller/module/module_controller.go:408-504 | All fair behaviors from a state converge to 0..R-1 if and only if its node set recovers, a condition on the marked and unmarked indices at the start |
| Necessity.LostBehavior | pkg/controller/module/module_controller.go:422-500 | From any other node set a fair behavior ends at a gap below R for good |
| Necessity.FairBehaviorFrom | pkg/controller/node/node_controller.go:88-118 | Fair behaviors exist from every state |
| Recovery.MoveKeepsRecovers | pkg/controller/module/module_controller.go:422-500 | Deleting a marked index, growing and marking keep the condition |
| Recovery.TopUnique | pkg/controller/module/module_controller.go:476-488 | What a pass marks are all indices but the R lowest |
| Refinement.StepMoves | pkg/controller/module/module_controller.go:408-504 | Every step of every controller is one of these moves on the indices of a service, or leaves them |
| Refinement.PassMoves | pkg/controller/module/module_controller.go:408-504 | A node pass of the module is the pass on its indices, for every order the sort can give |
| FairRuns.ReadyRecovers | pkg/controller/module/module_controller.go:408-504 | The premise of the finite runs, no low mark and either fewer than R nodes or all low ones, is a case of the condition |
| FairRuns.NodeGoes | pkg/controller/node/node_controller.go:108-170 | A marked node of any service is eventually deleted once the controller has looked for its machine in vain, whatever Consul answers at other times |
| Statuses.StatusStep | pkg/controller/node/node_controller.go:242-255 | New nodes have no status, and of all steps only the node controller looking at a node changes its status, to what Consul said |
| Statuses.NodeStepDeletesIff | pkg/controller/node/node_controller.go:108-118 | A node reconcile deletes its node exactly if it is marked with the ID of a missing machine stored, and changes nothing but one status otherwise |
| Statuses.LookStores | pkg/controller/node/node_controller.go:126-222 | What is stored after each answer of Consul; a failed request leaves the status |
| Statuses.GoneComesFromLook | pkg/controller/node/node_controller.go:155-198 | A stored ID becomes that of a missing machine only in a look that Consul answered so |
| Statuses.DeletedWasLookedFor | pkg/controller/node/node_controller.go:88-170 | Over every run of all controllers a node is deleted only by its own reconcile, while marked, and after a look in vain whose result was stored until then |
| Statuses.NamedAlong | pkg/controller/node/node_controller.go:190-198 | If reported machines carry a name, every healthy node is named at every state of every run |
| Statuses.RunsFollowRule | pkg/controller/module/module_controller.go:531-563 | So in those runs every reconcile chooses the action of the rule, in whatever order the nodes were listed |
| Instances.GapNeverFilled | pkg/controller/module/module_controller.go:422-476 | The indices 0, 1, 3, 4 with R = 4: a fair behavior without convergence |
| Instances.MarkedLowCanBeLost | pkg/controller/module/module_controller.go:491-499 | A marked 0 beside an unmarked 7 with R = 3: a fair behavior that ends at a gap |
| Instances.MarkedLowCanRecover | pkg/controller/module/module_controller.go:491-499 | A marked 0 beside 7 and 8 with R = 3: all fair behaviors converge, and there is one |
| Instances.PassTurnsUpgradeIntoDeploy | pkg/utils/node.go:98-114 | A state where the node pass of a validated upgrade makes the next reconcile replace its job |
| Instances.SecondReplacementHappens | pkg/utils/node.go:98-114 | A run with every healthy node named, and specs and statuses fixed, that replaces a job twice |
| Gaps.StuckForever | pkg/controller/module/module_controller.go:422-476 | A gap below R with at least R nodes is never filled: the R lowest nodes stay, unmarked, in every run |
| Gaps.VictimsAvoidKept | pkg/controller/module/module_controller.go:476-499 | The sort never puts one of the R lowest nodes into the marked slice |
| Convergence.LowNodesAreSafe | pkg/controller/module/module_controller.go:408-504 | In every finite run from the premise no index below R is ever marked or deleted, and the surplus only shrinks |
| Convergence.StepIsSafe | pkg/controller/module/module_controller.go:422-500 | Every step of every controller keeps the premise, adds nothing but unmarked low indices and deletes only marked nodes whose machine is gone |
| Convergence.OwnPassIsSafe | pkg/controller/module/module_controller.go:408-504 | One pass of the module itself always succeeds, leaves all indices below R, and once they exist marks every other node |
| Convergence.TargetModule | pkg/controller/service/service_controller.go:215-224 | A service has one module, so one replica count decides about its nodes |
| Interleaving.DeletionIsSafe | pkg/controller/node/node_controller.go:88-118 | Call by call, over all runs: a node disappears only through the guarded Delete, while its deletion date is set and its stored ID is the one of a missing machine; the very mark it carries was set for the reason of the next row; and the controller looked for its machine in vain, unless the ID was stored from the start |
| Interleaving.MarksHaveReasons | pkg/controller/module/module_controller.go:476-500 | The mark an object carries was set by one step of a pass, on this object while it was unmarked; a listing taken earlier in the run held at least R other nodes of that service with a sort key no larger; and the object has been stored with that date ever since |
| Interleaving.GoneWasLookedFor | pkg/controller/node/node_controller.go:149-170 | Whoever has the ID of a missing machine stored was looked for by a reconcile that Consul told so, and has been stored ever since |
| Interleaving.MarksLast | pkg/controller/module/module_controller.go:491-499 | A mark is never cleared or rewritten for as long as the object exists |
| Interleaving.StepIsSafe | pkg/controller/node/node_controller.go:224-255 | Each API call of either controller respects marks, and creates or deletes nodes only as the guards say, stale copies and failed calls included |
| Interleaving.StepKeepsGood | pkg/controller/node/node_controller.go:224-255 | The invariant behind it: copies with a current version are current, a decided deletion stays justified, and an object with a reconcile in flight is still stored |
| Interleaving.ListingsWereListed | pkg/controller/module/module_controller.go:506-529 | The listing a pass marks from is the node set of its service at an earlier moment of the run |
| Interleaving.FallbackCreateFails | pkg/controller/node/node_controller.go:227-236 | The create after a failed status update always finds the object in place |
| Jobs.JobsNeverOverlap | pkg/controller/module/module_controller.go:213-277 | Over any run, jobs of one module never run side by side, and a replaced job never runs again |
| Jobs.JobsChangeOnlySo | pkg/controller/module/module_controller.go:128-277 | A job is made only by its module's reconcile, and tells the provisioner that moment's flavor, image and number of replicas and whether to remove, upgrade or deploy; an active job survives every step |
| Jobs.NewJobTells | pkg/controller/module/module_controller.go:128-188 | What a new job says whatever the environment contains: FLAVOR, IMAGE, QUANTITY, command and container image |
| Replacements.AtMostOneReplacementIff | pkg/controller/module/module_controller.go:232-277 | While the spec and the statuses of the nodes stay, all runs replace the job of a module at most once, if and only if the order of listings does not matter to the action and growth past R cannot turn a due upgrade, that the stored job is not, into a deploy |
| Replacements.AtMostTwoReplacements | pkg/controller/module/module_controller.go:232-277 | Where the order of listings does not matter, at most twice |
| Replacements.TwoReplacementsFlip | pkg/controller/module/module_controller.go:232-277 | Between two replacements the choice has flipped from Upgrade to Deploy by growth past R, and the job stored at the start was not the upgrade |
| Jobs.NoChurnIff | pkg/controller/module/module_controller.go:422-500 | A node pass that ends with at most R nodes or only marks leaves the action unchanged; the action changes exactly when growth passes R while an upgrade is due |
| Jobs.PassAction | pkg/controller/module/module_controller.go:531-563 | A node pass leaves everything the action depends on, but that an upgrade is no longer due exactly after growth past R |
| Jobs.ValidatedJobStillMatchesIff | pkg/controller/module/module_controller.go:143-166 | The job a reconcile has just validated matches on the next one in every listing order, exactly if its own pass grew past R and it is a deploy, or did not and the order does not matter |
| Jobs.StatusesDecideAction | pkg/utils/node.go:97-137 | What the action depends on follows from the names and statuses of the nodes, not from marks or hostnames |
| Jobs.RunInvariants | pkg/controller/module/module_controller.go:213-277 | In every run what runs is what the stored jobs report as active, under unique ids |
| Completed.QuiescentCompletedIsTruthful | pkg/controller/module/module_controller.go:279-369 | A reconcile that writes nothing and leaves Completed: the matching job is started, idle and reported Complete, R replicas are updated, there are at least R nodes, the surplus is marked, and with exactly R nodes each has a machine with the target image and flavor whose checks all pass |
| Completed.StatusSettles | pkg/controller/module/module_controller.go:286-345 | From any stored status, with spec, job and nodes fixed and in whatever orders the nodes are listed, the third reconcile writes nothing, and its phase is Completed exactly when the job is reported Complete and R nodes are updated |
| Completed.OneReconcile | pkg/controller/module/module_controller.go:298-308 | A reconcile that reaches its status update changes nothing but the status, to a function of the stored counts, the chosen action and the node set |
| Completed.JobPhaseMeans | pkg/controller/module/module_controller.go:347-369 | Each phase read from a job, by its start time, active pods and first condition |
| Completed.StoredPhase | pkg/controller/module/module_controller.go:286-308 | The phase a reconcile stores, by what the job controller reported: Running, Failed for a failed job, Completed or Pending for a complete one as the stored counts say |
| Completed.UnreadableJob | pkg/controller/module/module_controller.go:357-369 | The reconcile stops short of the status exactly for a job that is started and idle without a known condition |
| Completed.StoredCounts | pkg/controller/module/module_controller.go:321-345 | The three counts a reconcile stores, by the machines that are up and those on the target |
| Completed.ReplacedOrBusy | pkg/controller/module/module_controller.go:232-277 | A replaced job was idle and of another kind, and the phase becomes Pending; an active one is waited for and nothing is written |
| ModuleLogic.StatusSettlesInOneIff | pkg/controller/module/module_controller.go:297-303 | One reconcile is enough exactly when the job is not complete or the stored counts agree with the present ones |
| ModuleLogic.ActionIsRuleIff | pkg/controller/module/module_controller.go:531-563 | The choice made against the first healthy node is the declarative rule (Upgrade iff 0 < count <= R, some node is healthy and some existing node is off target) in every listing order, if and only if every healthy node is named or no upgrade is due |
| ModuleLogic.OrderMattersIff | pkg/controller/module/module_controller.go:531-563 | Two listings of the same nodes lead to different actions if and only if an upgrade is due and some but not all healthy nodes are named |
| ModuleLogic.ChosenInEveryOrder | pkg/controller/module/module_controller.go:531-563 | Otherwise every listing leads to the one action that follows from the set |
| ModuleLogic.ActionMeans | pkg/controller/module/module_controller.go:531-563 | Remove exactly without replicas; upgrade exactly if one is due and the first listed node that is up has a name |
| ModuleLogic.OneStandsForAll | pkg/utils/node.go:71-93 | The comparisons with one healthy node succeed exactly when no machine is off target |
| NodeUtils.HealthyIsUp | pkg/utils/node.go:109-137 | A node is healthy exactly if Consul knows its machine, image and flavor and no check of it fails |
| NodePasses.PassLeaves | pkg/controller/module/module_controller.go:422-500 | New nodes are empty and carry the object name and hostname of an index below R; others are untouched or, if unmarked before, marked with the time of the pass |
| NodePasses.PassFailsIff | pkg/controller/module/module_controller.go:409-482 | A pass is refused exactly without annotations, for a node pool that lacks nodes and a cluster name, or for a surplus with a hostname whose number cannot be read |
| NodePasses.StemMeans | pkg/controller/module/module_controller.go:425-456 | The hostname without its index, by application and the cluster name in the environment |
| ModuleLogic.UnnamedNodeMakesOrderMatter | pkg/utils/node.go:65-69 | With a healthy node that Consul has not named, the order of the listing changes the action |
| ModuleLogic.JobMatchExact | pkg/controller/module/module_controller.go:127-167 | Two module states need the same job exactly when action, flavor, replicas, image and base env are all equal |
| ModuleLogic.ReplicasConserved | pkg/controller/module/module_controller.go:388-397 | The updated nodes are among the healthy ones: under Deploy updated <= current; the conservation itself is in GetUpdatedNodes below |
| ModuleLogic.ScaleDownMarksHighest | pkg/controller/module/module_controller.go:476-499 | Scaling down never fails on digit-free prefixes and marks exactly the nodes with at least R nodes of the service below them in index order |
| ModuleLogic.SecondPassWritesNothing | pkg/controller/module/module_controller.go:491-499 | A second pass, with any order of the sort, writes nothing |
| NodeSet.NodeNameInjective | pkg/controller/module/module_controller.go:461-461 | Object names are injective in service and index over all services |
| NodeSet.NameTakenByOwn | pkg/controller/module/module_controller.go:472-474 | An object that already holds a generated name belongs to the same service, so the ignored AlreadyExists hides nothing |
| NodeSet.HostnamesUnique | pkg/controller/module/module_controller.go:425-456 | Two nodes of one service never share a hostname, whatever prefixes they were created with |
| ModuleLogic.SharedHostnameIff | pkg/controller/module/module_controller.go:425-456 | New nodes of any two modules share a hostname if and only if stem and index agree |
| ModuleLogic.SameAppSharesHostnames | pkg/controller/module/module_controller.go:454-456 | Two services of one other application share all hostnames under different object names |
| NodeSet.GrownExactly | pkg/controller/module/module_controller.go:423-475 | A grow pass turns the index set I into I and 0..R-1, rewrites nothing and touches no other service |
| NodeSet.TailIsVictims | pkg/controller/module/module_controller.go:476-488 | The tail of any ascending listing from place R on is a set of the right size whose keys are no smaller than those kept |
| NodeSet.VictimsUnique | pkg/controller/module/module_controller.go:476-488 | With digit-free prefixes that set is the same for every ascending order |
| NodeSet.VictimsAboveLow | pkg/controller/module/module_controller.go:488-488 | If all indices below R exist, the marked slice is exactly the rest |
| NodeSet.TiedVictims | pkg/utils/node.go:14-33 | With a digit in a shared prefix every set of the right size is a possible slice |
| Tied.TiedConvergesIff | pkg/utils/node.go:14-33 | With a number in the prefix, and marks anywhere: all fair behaviors converge to 0..R-1 if and only if R is zero or every unmarked index is below R |
| Tied.TiedConverges | pkg/controller/module/module_controller.go:408-504 | From such a node set every fair behavior of all controllers ends with exactly 0..R-1, whatever the sort picks |
| Tied.TiedLost | pkg/controller/module/module_controller.go:476-499 | From any other a fair behavior keeps an index that is too high for good |
| Tied.TiedStepMoves | pkg/controller/module/module_controller.go:408-504 | Every step deletes a marked index, adds the low ones or marks any set of the right size |
| Tied.OverflowNeverMarksIff | pkg/utils/node.go:22-29 | A scale-down with a digit in the prefix fails in the sort exactly when the first number does not fit in an int |
| Instances.NumberedScaleDownCanBeLost | pkg/controller/module/module_controller.go:454-456 | The application k3s scaled from 3 to 2: a fair behavior that never gets to the nodes 0 and 1 |
| NodeSet.PlainKey | pkg/utils/node.go:22-26 | For a generated hostname with a digit-free prefix the sort key is the index of the object name |
| Decimal.KeyIsIndexIff | pkg/utils/node.go:13-30 | The first digit run of a generated hostname parses to its index for every index iff the prefix has no digit; otherwise the key ignores the index |
| Decimal.DashSplit | pkg/controller/module/module_controller.go:455-461 | A dash and a printed decimal are read back unambiguously from the right |
| Decimal.PrintInjective | pkg/controller/module/module_controller.go:135-135 | Decimal printing is injective |
| NodeUtils.SortNodesByNumber | pkg/utils/node.go:14-33 | In place: a permutation, ascending when every hostname parses, and a parse failure exactly when one does not |
| NodeUtils.NodesAreConsistent | pkg/utils/node.go:52-95 | Returns the first healthy node, and true exactly when it is unnamed or no existing node with another hostname differs from it |
| NodeUtils.FirstHealthy | pkg/utils/node.go:55-63 | A healthy listed node, found exactly when there is one |
| NodeUtils.GetNodesCount | pkg/utils/node.go:98-106 | The number of nodes whose ID is not that of a missing machine |
| NodeUtils.CountIsCardinality | pkg/utils/node.go:98-106 | Counting over a listing is the cardinality of a set, so it does not depend on the order |
| EnvVars.EqualEnvVars | pkg/utils/module.go:17-31 | True exactly when lengths agree and no shared name differs in value |
| EnvVars.IsModuleDifferent | pkg/utils/module.go:9-14 | False exactly when flavor, image, replicas and the compared env agree |
| EnvVars.EqualIsMapEquality | pkg/utils/module.go:17-31 | With unique names: the process environments are equal iff the comparison says so and the name sets agree |
| EnvVars.EqualMeansOneValue | pkg/utils/module.go:17-31 | In general: lengths agree and all occurrences of each shared name carry one common value |
| EnvVars.EqualIgnoresOrder | pkg/utils/module.go:22-28 | Permuting either list does not change the answer |
| EnvVars.EqualReflexiveIff | pkg/utils/module.go:22-28 | A list equals itself exactly when no name has two values |
| EnvVars.RenameMissed | pkg/utils/module.go:22-28 | A rename that the comparison misses although the environments differ |
| ServiceEnv.BuildEnv | pkg/controller/service/service_controller.go:119-212 | The appends and the search loop build the environment that the lemmas below are about |
| ServiceEnv.ClusterNameDerived | pkg/controller/service/service_controller.go:175-212 | The name the module controller finds by last match is the user's last CLUSTER_NAME if a non-empty one was given, else the service name |
| ServiceEnv.ClusterNameAgrees | pkg/controller/module/module_controller.go:427-437 | With at most one user variable that upper-cases to CLUSTER_NAME: its non-empty value or the service name, never empty |
| ServiceEnv.ClusterNameEmptyIff | pkg/controller/module/module_controller.go:427-437 | Without that premise the name is empty exactly when a non-empty CLUSTER_NAME is followed by an empty last one |
| ServiceRuns.ClusterHostnames | pkg/controller/module/module_controller.go:427-437 | Hostnames of a cluster service start with that non-empty name |
| ServiceRuns.EditReachesModule | pkg/controller/service/service_controller.go:215-270 | Whatever was stored, after a service reconcile the Module asks for the Service's replicas, flavor and versioned image, and every variable it shares with the built environment reads as built |
| ServiceRuns.ServiceStepWrites | pkg/controller/service/service_controller.go:214-270 | A new Module knows its service and application, an old one keeps all but its spec, and no other object changes |
| ServiceRuns.PhaseIsCopied | pkg/controller/service/service_controller.go:272-306 | The Service takes over the phase of its Module, is looked at again soon while that is Pending or Running, and its extras are due exactly for a completed cluster |
| ServiceRuns.BuiltEnvTells | pkg/controller/service/service_controller.go:119-212 | The environment as a process sees it: the user's variables, and over them name, provider, the roles of a cluster or node pool, and a cluster name |
| ServiceRuns.UserEnvMeans | pkg/controller/service/service_controller.go:119-126 | Variable names are upper-cased letter by letter, values kept |
| ServiceRuns.ServiceSettlesIff | pkg/controller/service/service_controller.go:255-270 | After a reconcile that created or rewrote the Module the next one rewrites it again iff the built env gives one name two values; otherwise it is left alone for good |
| Protocol.StepKeepsWellFormed | pkg/controller/module/module_controller.go:459-471 | Every step keeps objects under their own names and nodes as the controller generates them |
| Protocol.ModuleStepObjects | pkg/controller/module/module_controller.go:106-319 | A module reconcile writes at most its own status, its own job and what one node pass writes |
| Protocol.PassElsewhere | pkg/controller/module/module_controller.go:408-504 | A node pass does not touch the nodes of other services |
| ModuleController.ModuleReconciler.Reconcile | pkg/controller/module/module_controller.go:106-319 | The method performs exactly the module step of the state machine, for the listing and sort order it met |
| ModuleController.ModuleReconciler.ManageNodesForModule | pkg/controller/module/module_controller.go:408-504 | New node set and error are those of the node pass |
| ModuleController.ModuleReconciler.Grow | pkg/controller/module/module_controller.go:423-475 | Creates the missing names below R, or fails before the first create when a node pool has no cluster name |
| ModuleController.ModuleReconciler.MarkSurplus | pkg/controller/module/module_controller.go:476-500 | Sorts and marks a slice that an ascending order allows; on a failed sort nothing is written |
| ModuleController.ModuleReconciler.MarkTail | pkg/controller/module/module_controller.go:491-499 | Marks the unmarked nodes of the slice and writes no other object |
| ModuleController.ModuleReconciler.ChooseModuleAction | pkg/controller/module/module_controller.go:531-563 | The action for the listing it read; an error exactly for R > 0 without a service name |
| ModuleController.ModuleReconciler.GetUpdatedNodes | pkg/controller/module/module_controller.go:371-406 | The single scan over all nodes of the namespace conserves the healthy nodes of the service: current = healthy under Deploy, current + updated = healthy otherwise, updated = healthy on the target |
| ModuleController.ModuleReconciler.UpdateModuleStatus | pkg/controller/module/module_controller.go:321-345 | The stored status becomes the one for the present nodes, nothing else changes |
| ModuleController.ModuleReconciler.RetrieveNodesForService | pkg/controller/module/module_controller.go:506-529 | Lists each node of the service once, or reports the empty service name |
| ModuleController.ModuleReconciler.ClusterName | pkg/controller/module/module_controller.go:429-445 | The last CLUSTER_NAME of the env wins |
| ModuleController.ModuleReconciler.SpecHostname | pkg/controller/module/module_controller.go:425-456 | The hostname without its index; none for a node pool without a cluster name |
| NodeController.NodeReconciler.Reconcile | pkg/controller/node/node_controller.go:88-239 | The method performs exactly the node step: guarded delete, or the status for what Consul said |
| NodeController.NodeReconciler.UpdateNodeStatusIfNeeded | pkg/controller/node/node_controller.go:242-255 | The stored node gets the new status and nothing else changes |
| ServiceController.ServiceReconciler.Reconcile | pkg/controller/service/service_controller.go:105-307 | The method performs exactly the service step: Module created or rewritten, phase copied, extras due |
| ExternalId.VersionRoundTripIff | pkg/controller/application/application_utils.go:254-254 | For every name and version: the printed ID parses iff no control character comes before its first # and no malformed escape after it; and the version read back is the one printed iff the name is harmless and the version has no character with a meaning in a query, or the name brings that version itself |
| ExternalId.NameOkIff | pkg/controller/application/application_utils.go:254-254 | The harmless names are exactly those beside which the plain versions and no others survive; beside any other name at most one does |
| ExternalId.VersionsThatFail | pkg/controller/application/application_utils.go:196-205 | A version that makes the ID unreadable and one that is read back changed |
| ExternalId.NamesThatFail | pkg/controller/application/application_utils.go:196-205 | A name with a separator that is harmless, one that ends the query and one that brings a version |
| ExternalId.UnescapeFailsIff | pkg/controller/application/application_utils.go:197-197 | Decoding fails exactly on a percent sign without two hexadecimal digits |
| ExternalId.UnreservedIsSafe | pkg/controller/application/application_utils.go:254-254 | Text of unreserved characters (section 2.3 of RFC 3986) is such text |
| ExternalId.NoHashInName | pkg/controller/application/application_utils.go:203-205 | The catalog never shadows the version; the name does exactly if it brings one |
| ExternalId.ParseAppend | pkg/controller/application/application_utils.go:203-205 | A separator splits a query into the pairs of its parts |
| Applications.DeployedIsUpToDateIff | pkg/controller/application/application_controller.go:148-188 | After a successful install or upgrade that Rancher reports back, the next reconcile in full: up to date iff the version survives beside the name, refused without a request iff the ID cannot be parsed, and otherwise the upgrade again, posted or crashed on a project ID without a colon |
| Applications.UnreadableBlocksProject | pkg/controller/application/application_utils.go:196-200 | One ID that cannot be parsed refuses every Application of the project |
| Applications.UpToDateIff | pkg/controller/application/application_controller.go:118-188 | Up to date exactly if cluster, project and apps can be read, every ID parses, and the first app of the name carries the version and exactly the answers a deployment would post |
| Applications.EditIsPosted | pkg/controller/application/application_controller.go:157-177 | After a reported deployment, a spec with another version or other answers is posted as an upgrade with them, or crashes on a project ID without a colon |
| Applications.PostsMean | pkg/controller/application/application_utils.go:241-313 | One request at most, an install exactly if no app of the name is listed, with project, name, version, namespace and answers wanted |
| Applications.AnswersMean | pkg/controller/application/application_utils.go:334-417 | Each parameter with its value, the defaults of a backup elsewhere, and no answers exactly for monitoring on another platform than openstack |
| Applications.ProjectOfMeans | pkg/controller/application/application_utils.go:106-158 | The project used is the first of its name, in an active cluster |
| Applications.TargetFound | pkg/controller/application/application_controller.go:148-155 | The app compared with is the first listed one of the name, with its own version and answers |
| Applications.GetRancherAppsFromProject | pkg/controller/application/application_utils.go:194-213 | Every app with its parsed version, or an error as soon as one ID does not parse |
| Applications.ParsedAppsAt | pkg/controller/application/application_utils.go:196-210 | One unparsable ID fails the list; otherwise each place holds its own app, version and answers |
| Applications.TargetAppAt | pkg/controller/application/application_controller.go:148-155 | The search picks the first app of the wanted name |
| Applications.BuildAppAnswers | pkg/controller/application/application_utils.go:405-417 | In any order of the map iteration: the defaults overridden by the parameters |
| Applications.ApplicationReconciler.DeployApplication | pkg/controller/application/application_utils.go:241-313 | Sends the printed ID with the built answers; a project ID without a colon crashes an upgrade before the request |
| Applications.ApplicationReconciler.UpdateStatus | pkg/controller/application/application_controller.go:195-211 | Phase and error message are written only when the phase changes |
| Applications.ApplicationReconciler.Reconcile | pkg/controller/application/application_controller.go:102-193 | Requests, verdict and final phase of one reconcile |
| Extras.LastEntryWins | pkg/controller/service/service_controller_extra.go:17-104 | With replicas a listed kind ends with version and parameters of its last entry, an unlisted kind is untouched |
| Extras.RemovedAt | pkg/controller/service/service_controller_extra.go:66-74 | Without replicas every listed kind is removed and no other |
| Extras.OthersUntouched | pkg/controller/service/service_controller_extra.go:17-46 | Objects of other services are never touched, even when the list stops at an error |
| Extras.ExtrasIdempotent | pkg/controller/service/service_controller_extra.go:17-104 | A second run leaves the same store |
| Extras.ChainFollowsLastEntry | pkg/controller/monitoring/monitoring_controller.go:109-147 | The Application of a listed kind is a function of the last entry alone, and running both hops again changes nothing |
| Extras.ListedExtraArrives | pkg/controller/service/service_controller_extra.go:17-222 | Of the entries of one name the last arrives: an Application of the extra's name with its version, cluster and parameters, logging with the service as cluster name |
| Extras.EntryMeans | pkg/controller/monitoring/monitoring_controller.go:109-123 | Object name, application name, project and namespace of each extra |
| Extras.KnownExtras | pkg/controller/service/service_controller_extra.go:19-42 | The three extras, and that only logging needs parameters |
| Extras.StopsAtBadEntry | pkg/controller/service/service_controller_extra.go:19-42 | The first unknown name, or logging without parameters, ends the run; the entries before it have been handled |
| Extras.ChainComesToRestIff | pkg/controller/application/application_controller.go:148-188 | Once Rancher reports that Application back: up to date iff the entry's version has no character with a meaning in a query; refused with its whole project if it cannot be parsed; otherwise the same posted again, or a crash |
| Extras.ExtrasServer.ManageExtras | pkg/controller/service/service_controller_extra.go:17-46 | In order, stopping at the first unknown name, or panicking on nil logging parameters |
| Extras.ExtrasServer.ManageExtra | pkg/controller/service/service_controller_extra.go:164-222 | Delete, create or update of one extra object, logging with the forced cluster name |
| Extras.ExtrasServer.ReconcileExtra | pkg/controller/monitoring/monitoring_controller.go:95-150 | The Application becomes the one for the extra object, created or rewritten as needed |

## Left out

- HTTP, TLS, authentication and the JSON of Rancher, Consul and Slack: what they answer is a parameter.
- Namespaces: one namespace, since `opa/constraints/force-automium-to-use-default-ns.yaml` forces every Service, and with it everything the operator creates, into the default one.
- API errors inside `Protocol`: its reconciles succeed or fail for the reasons in the code; failing calls, without effect on the store, are part of `Interleaving` only.
- Stale caches: a Get or List returns what is stored at that moment; in `Interleaving` it may be out of date when it is used.
- Node or Module objects written by hand and negative replicas: preconditions (`WellFormed`, `nat`).
- Deletion of a Service and the garbage collection of what it owns; owner references.
- Jobs.JobsNeverOverlap: a job runs while its status reports active pods; a pod that has started before the job controller reports it is not modelled, and neither is a pod that outlives its job.
- Tied.TiedConvergesIff: nodes of one service that were created with different prefixes; what one pass marks is then still given by the sort keys.
- Applications.AnswersMean: the default answers of monitoring are those of the code, without a property of their own.
- Watches, requeue delays, clocks, events, logging and Slack messages: a step may always happen again, a date is empty or set.
- Cleanup of the pods of a replaced job, and the container image, which the code does not compare.
- Environment variables that take their value from elsewhere, and letters outside ASCII in `strings.ToUpper`.
- Comparison of statuses as JSON: structural equality, with absent and empty check lists identified; truncation of check outputs.
- The algorithm inside `sort.Slice`: an insertion sort stands for it, and all results about nodes hold for every ascending order. Only whether an unparsable hostname ends in an error or a panic may depend on the algorithm.
- External IDs of another form than the operator posts: what Go finds in them is a parameter.
- The panic of an upgrade on a project ID without a colon, and of logging extras without parameters, end the modelled call; the restart of the operator is not modelled.
- Sharing of the logging parameters map between the Service and the extra object.
- The backup and logging controllers: the same code as monitoring, with their constants.
- The service reconcile's call of ManageExtras: it ends with the outcome `Extras`, and the call is modelled in module `Extras`.
- The catalog refresh before a deployment, which is allowed to fail, and the texts of error messages.
- CRDs, charts, policies and provisioner scripts.
- Necessity.ConvergesFromMarksIff: fairness is a premise about the environment (passes that get past the job check, node reconciles, and machines that the provisioner removes); it is not derived from the work queue.
