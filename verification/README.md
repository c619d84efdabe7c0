# Verified models of the kcp virtual workspaces

The repository runs a handful of small controllers and servers beside kcp. Each keeps some derived state - an
index, a set of bindings, a cache, a published URL - that must always agree with objects it only sees change.
This project models the parts where that agreement is hard and proves it for every history, run or input.

| file | models |
|---|---|
| `AccessGraph.dfy`, `RbacTranslator.dfy`, `AccessIndex.dfy` | the reference-counted access index and its answers |
| `Tenancy.dfy`, `FanOut.dfy` | the membership and project reconcilers as single client calls that interleave |
| `GrantScope.dfy` | what those interleaved passes write at all |
| `Revocation.dfy`, `RevocationRuns.dfy`, `Lifecycle.dfy` | the same reconcilers as whole passes that may die at any write, with finalizers and deletion, and their histories |
| `LonePass.dfy`, `MissedGrant.dfy` | what a pass does left alone, and which grants a project not stored as ready misses |
| `LateGrant.dfy` | revocation while other passes run one client call at a time |
| `Workspaces.dfy` | claiming workspace names among several owners |
| `Revisions.dfy`, `DefinitionCache.dfy`, `CacheRuns.dfy`, `CacheAnswers.dfy` | the API definition cache: resolution, the locked sections, concurrent runs |
| `Directory.dfy` | the tenancy directory, its reverse index and the review join |
| `Offering.dfy` | permission claims and their revision |
| `UrlDigest.dfy`, `EndpointSlice.dfy` | published URLs, how the server takes them apart, and publishing as a fixed point |
| `Naming.dfy` | slugs and workspace names |
| `IdentityCache.dfy` | the per-identity answer cache |
| `BindGrant.dfy` | the bind grant of an offering, with crashes |
| `Options.dfy`, `Text.dfy`, `Sorting.dfy` | optional values, byte strings and sorting as Go provides them |

Check everything with `dafny verify dfyconfig.toml`.

## How the models read

- A Go struct whose methods change its maps is a class with the same maps and methods. `for k := range m` is a
  loop that picks any remaining key, and `sort.Slice` promises a sorted permutation and nothing about equal keys,
  so every result holds for all iteration orders.
- Work that other processes can interleave with is a state machine with one action per client call or locked
  section. Runs are sequences of enabled actions, of any length and by any number of passes or requests.
- Client reads see the current store, and there is at most one running reconcile per object key.
- SHA-256 stands as a function parameter or as the hexadecimal suffix it yields. Time is a number given with each
  event. Lowercasing is a character map that leaves label characters alone.
- The desired rules of a role are one token per role, and a membership's binding is addressed by the membership's
  name: the object name only adds a fixed prefix.

## Findings

Properties the code does not keep, each with the exact condition or a concrete run:

- `updateProjectStatus` swallows a write conflict and the pass goes on. A covering membership created later can then end
  Ready without reaching the project; a project whose pass ended is reached by all of them exactly when its stored
  status is ready (`MissedGrant.StatusDecides`, `MissedGrant.SwallowedConflictLosesGrant`, `FanOut.NoLostGrant`).
- Over such a conflict a pass can also leave a binding in a project that is not ready, out of the sight of revocations:
  exactly when the project was not ready and a live membership covers it. A later ready pass makes it good
  (`RevocationRuns.SwallowedExactly`, `RevocationRuns.ReadyAgain`).
- A revocation that cannot read its targets, because a Get or List failed, drops the finalizer all the same: it leaves
  nothing bound exactly when it could read them or nothing was bound (`RevocationRuns.RevocationExactly`,
  `RevocationRuns.RevokedWithoutList`).
- A project pass binds a membership that has no finalizer yet; deleting that membership at once leaks as soon as one
  pass of a covered project completed since its creation, and only then when no pass died midway
  (`RevocationRuns.DeletedBeforeFinalizer`, `RevocationRuns.DeletedWhenPulled`).
- One failed look at its workspace turns a ready project to Error, and a revocation in that window passes its binding
  by; readiness is lost harmlessly exactly when nothing is bound there (`RevocationRuns.StepReady`,
  `RevocationRuns.MembershipPassOwned`, `RevocationRuns.RevokedWhileNotReady`).
- A revoked membership can be bound again by a pass that listed it before; it stays revoked exactly when no running pass
  will still get to such a job (`LateGrant.ReachedRevocationLasts`, `LateGrant.ListedThenRevoked`).
- Removing one owner's workspace can make another owner's next pass create a second workspace
  (`Workspaces.RemovalAllowsSecond`). Editing a display name can do the same: the old workspace is adopted exactly when
  it is at the first of the new candidates that others do not hold (`Workspaces.Parent.EnsureWorkspace`).
- The error status drops the workspace name, so a deleted project's finalizer can go while its workspace stays: exactly
  when the status had stopped naming it (`RevocationRuns.LeftBehind`).
- Two tenants recorded with one workspace lose an index entry: the index is complete all along exactly when no workspace
  is ever shared (`Directory.CompleteExactly`).
- Only last candidates are kept apart: a plain slug is another object's last candidate exactly when it ends in a dash
  and that object's suffix (`Naming.SlugMeetsLastCandidate`).
- With two declared claims on one resource the result can depend on the order they are declared in, exactly when they
  differ; a stable sort does not help (`Offering.OrderFreeExactly`, `Offering.StableOrderFreeExactly`).
- `equalValues` compares lists with `!=`, which panics. Publishing is a fixed point exactly when the endpoint holds
  no list, as with the label-only selectors the command line builds (`EndpointSlice.PublishTwice`).
- The published URL agrees with the server's prefix exactly when the root prefix is plain: one leading slash, at
  most one trailing slash, not "/" alone, or the odd "//" (`UrlDigest.PublishedPrefixAgrees`).
- A build with a repeated GVR loses a definition without tearing it down (`DefinitionCache.BuiltHoldsAll`).
- `MembershipName` promises an object name, but a subject, or a last part, without a single letter or digit of
  a-z0-9 gives a name that starts or ends with a dash (`Naming.MembershipNameValid`).

## Model

| member | source | states |
|---|---|---|
| `AccessIndex.ReviewAfter` | access/pkg/graph/query.go:24-49 | after any history of binding events, as the informers deliver them, the answer lists, strictly sorted, exactly the clusters where the last event about some binding left it naming the user, as a user or a service account, or one of its groups; each with the endpoint of that cluster |
| `AccessIndex.Confluence` | access/pkg/rbacprovider/translator.go:91-180 | two histories whose last event about every binding leaves the same subjects end with identical refs, access and endpoints, nested maps included |
| `AccessIndex.Replay` | access/pkg/rbacprovider/translator.go:91-180 | any history leaves the nested reference map, the access map and the endpoints equal to those recomputed from the live bindings, with no empty inner map |
| `AccessIndex.ValidIsRecomputed` | access/pkg/rbacprovider/translator.go:44-51 | the invariant of the incremental index pins it to the recomputed one |
| `AccessIndex.LiveIsLast` | access/pkg/rbacprovider/translator.go:103-152 | what is alive is decided by the last event about each binding, a forgotten cluster counting as the removal of all its bindings |
| `AccessIndex.GivenIsLast` | access/pkg/rbacprovider/translator.go:103-152 | a cluster is given by a live binding exactly when the last event about some binding there applied it for the caller |
| `AccessIndex.SameSubjectsSameIndex` | access/pkg/rbacprovider/translator.go:224-230 | the recomputed index depends only on the set of subjects of each binding, not on order or repetition |
| `AccessIndex.VisibleIsGiven` | access/pkg/graph/query.go:30-38 | visible through the access map means given by a live binding |
| `AccessIndex.Deliver` | access/pkg/rbacprovider/translator.go:63-101 | one event changes the live bindings as it should and invents no endpoint |
| `RbacTranslator.Translator.Apply` | access/pkg/rbacprovider/translator.go:103-135 | one apply leaves references exactly equal to the contributions of the live bindings, even when it revokes the last subject of a cluster before granting new ones; endpoints are earlier ones or the given one |
| `RbacTranslator.Translator.DropStale` | access/pkg/rbacprovider/translator.go:113-120 | the first loop removes exactly the references of subjects no longer named |
| `RbacTranslator.Translator.AddFresh` | access/pkg/rbacprovider/translator.go:122-130 | the second loop adds exactly the references of subjects newly named |
| `RbacTranslator.Translator.ApplyRoleBinding` | access/pkg/rbacprovider/translator.go:63-74 | after applying a role binding it contributes a group exactly when a subject of kind Group has the name, a user exactly when a subject of kind User has it or it is the account of a ServiceAccount in its own or the default namespace, and nothing in other clusters; no other binding changes |
| `RbacTranslator.Translator.Remove` | access/pkg/rbacprovider/translator.go:137-152 | a removed binding contributes nothing, the rest is untouched |
| `RbacTranslator.Translator.ForgetCluster` | access/pkg/rbacprovider/translator.go:88-101 | exactly the bindings of the cluster go |
| `RbacTranslator.Translator.IncrementRef` | access/pkg/rbacprovider/translator.go:154-166 | one reference more, both indexes still in step |
| `RbacTranslator.Translator.DecrementRef` | access/pkg/rbacprovider/translator.go:168-180 | one reference less, the edge revoked with the last one |
| `RbacTranslator.DropRef` | access/pkg/rbacprovider/translator.go:168-180 | dropping a reference leaves no empty map, and the edge goes exactly with its last reference |
| `RbacTranslator.TranslateSubjects` | access/pkg/rbacprovider/translator.go:184-222 | users, groups and accounts are told apart, each appears once, nothing else does |
| `RbacTranslator.TranslatedNames` | access/pkg/rbacprovider/translator.go:203-225 | the same of the declared translation |
| `AccessGraph.Graph.Grant` | access/pkg/graph/graph.go:86-94 | one edge more, its cluster gets the endpoint |
| `AccessGraph.Graph.Revoke` | access/pkg/graph/graph.go:110-127 | one edge less, and the endpoint goes exactly when nobody reaches the cluster |
| `AccessGraph.Graph.SetEndpoint` | access/pkg/graph/graph.go:96-108 | only a reachable cluster gets the new endpoint |
| `AccessGraph.Graph.AnyAccess` | access/pkg/graph/graph.go:129-136 | true iff some subject reaches the cluster |
| `AccessGraph.Graph.Forget` | access/pkg/graph/graph.go:138-154 | every edge to the cluster and its endpoint go, nothing else |
| `AccessGraph.Graph.ClustersFor` | access/pkg/graph/query.go:24-49 | strictly sorted, each visible cluster once with its endpoint |
| `AccessGraph.AccessDetermined` | access/pkg/graph/graph.go:69-74 | with no empty entry the nested map is determined by its edges |
| `Sorting.StrictlySortedUnique` | access/pkg/graph/query.go:41-48 | a list sorted strictly by key is determined by its elements, so map iteration order cannot show |
| `Text.LessExactly` | access/pkg/graph/query.go:41-48 | strings compare by the first byte that differs, a proper prefix first |
| `FanOut.NoLostGrant` | tenancy/pkg/operator/project.go:99-134 | from any store and in every interleaving of single client calls: when the latest pass of a membership ended Ready, the latest pass of a covered project ended ready and its ready status is stored, that project workspace binds the membership's subject to its role, and the role has its own rules |
| `MissedGrant.StatusDecides` | tenancy/pkg/operator/project.go:99-134 | in every world of the state machine a project whose latest pass ended is reached by every acceptable covering membership to come, whatever else runs, exactly when its stored status is ready; another ready project is what lets such a membership end Ready at all |
| `MissedGrant.MissesUnready` | tenancy/pkg/operator/project.go:185-194 | while the stored status is not ready a membership created now can end Ready without its grant there, in every store |
| `MissedGrant.EndsUnready` | tenancy/pkg/operator/project.go:185-194 | a project pass whose status write meets a conflict goes on to its end, from every store with no pass running and acceptable memberships |
| `MissedGrant.SwallowedConflictLosesGrant` | tenancy/pkg/operator/project.go:185-194 | so from every such store both passes can end while the grant is missing |
| `FanOut.StepKeepsInv` | tenancy/pkg/operator/membership.go:63-133 | every client call of every pass keeps: of two passes past their lists, one has granted or still holds the job |
| `FanOut.GrantKeepsOrHolds` | tenancy/pkg/operator/membership.go:217-229 | the delete-and-recreate path only takes away a binding whose job its own pass still holds |
| `FanOut.GrantFinishesJob` | tenancy/pkg/operator/membership.go:179-230 | a job leaves a running pass only once its grant is there |
| `FanOut.RoleStaysRight` | tenancy/pkg/operator/membership.go:185-199 | a role once right is never made wrong by any pass |
| `FanOut.Call` | tenancy/pkg/operator/membership.go:177-230 | one client call of applyRBAC fails the pass, leaves its jobs, or finishes the first one over a binding that is there, and never finishes an unacceptable one; it writes nothing but the rules of the job's role and a binding of its subject to that role, and takes away only the binding it is about to replace |
| `FanOut.CoveredKept` | tenancy/pkg/operator/project.go:116-134 | ready is stored before memberships are listed and a membership exists before projects are listed, so no pair falls between the two lists |
| `GrantScope.RunBindsCovered` | tenancy/pkg/operator/membership.go:177-230 | whatever the interleaving, a binding a run adds or changes binds the subject of a membership that covers the project to its role, and a role it adds or changes is known and gets its own rules |
| `GrantScope.ListedExactly` | tenancy/pkg/operator/membership.go:138-175 | a membership pass goes on to exactly the ready projects it covers, and fails when there is none |
| `GrantScope.StatusChanges` | tenancy/pkg/operator/project.go:85-115 | a project becomes ready only by the status write of a pass that saw its workspace ready, and names that workspace then; a failed look stores Error |
| `GrantScope.RunReadies` | tenancy/pkg/operator/project.go:85-115 | in every run a project that ends up ready was so before, or a pass of it saw its workspace ready |
| `GrantScope.RunPublishes` | tenancy/pkg/operator/project.go:112-117 | in every run a project pass grants only in a workspace it saw ready |
| `GrantScope.RunNamesHome` | tenancy/pkg/operator/project.go:99-110 | in every run ready projects go on naming their own workspaces, from where the targets of memberships come |
| `LateGrant.ReachedRevocationLasts` | tenancy/pkg/operator/project.go:140-169 | in every world reached by interleaved passes: revoking a membership takes it and exactly its bindings, and leaves it unbound in every continuation exactly when no running pass will still get to a job for it |
| `LateGrant.RevocationLasts` | tenancy/pkg/operator/project.go:140-169 | the same for every orderly world, revoked memberships included |
| `LateGrant.RunKeepsOrderly` | tenancy/pkg/operator/membership.go:177-230 | every reachable world is orderly: a replacement can be overtaken only by the other pass with the same wish, and then nobody deletes that binding |
| `LateGrant.StaysRevoked` | tenancy/pkg/operator/project.go:140-169 | without such a job no run binds it again |
| `LateGrant.BindsLate` | tenancy/pkg/operator/membership.go:177-230 | with such a job the pass, left alone, binds it |
| `LonePass.FinishesJob` | tenancy/pkg/operator/membership.go:177-230 | from any stage of applyRBAC a pass left alone gets its acceptable first job done, unless it was overtaken |
| `LonePass.RefusesJob` | tenancy/pkg/operator/membership.go:179-205 | a role other than view, edit and admin, a subject of another kind than User and Group or without a name: the pass fails and binds nothing |
| `LonePass.FinishesAll` | tenancy/pkg/operator/membership.go:112-126 | left alone it gets all its acceptable jobs done and binds nothing else |
| `LateGrant.ListedThenRevoked` | tenancy/pkg/operator/project.go:143-169 | it happens in every store with acceptable memberships: a project pass that listed the membership before its revocation holds such a job |
| `RevocationRuns.Operate` | tenancy/pkg/operator/membership.go:50-133 | for any script of API events and passes, each dying after any number of writes: the stores the methods go through are a history from the empty store, every binding belongs to an existing membership that covers its project all along exactly when every event keeps that, and is in a ready project too exactly when every event keeps both |
| `RevocationRuns.OwnedAllAlong` | tenancy/pkg/operator/membership.go:50-133 | the same for every history from an owned store; what an event must not do is say which binding an edit, a deletion without finalizer or a completed revocation passes by; no project pass of any kind can break it |
| `RevocationRuns.ReadyAllAlong` | tenancy/pkg/operator/project.go:42-138 | bindings are in ready projects all along exactly when no project pass takes readiness from under one or binds past a swallowed conflict |
| `RevocationRuns.SettledAllAlong` | tenancy/pkg/operator/project.go:42-138 | both together, for every history |
| `RevocationRuns.ProjectPassKeepsOwned` | tenancy/pkg/operator/project.go:140-169 | whatever project pass runs, from any owned store, ready or not, it binds only live covering memberships |
| `RevocationRuns.MembershipPassOwned` | tenancy/pkg/operator/membership.go:50-85 | a membership pass from any owned store leaves a binding without its membership exactly when it completes a revocation and something was bound where it did not look |
| `RevocationRuns.StepReady` | tenancy/pkg/operator/project.go:85-138 | an event keeps bindings in ready projects exactly when it takes no readiness from under one and binds nothing in a project it could not store as ready |
| `RevocationRuns.SwallowedExactly` | tenancy/pkg/operator/project.go:185-194 | a pass run to its end over a swallowed conflict leaves a binding in a project that is not ready exactly when the project was not ready and a live membership covers it |
| `RevocationRuns.ReadyAgain` | tenancy/pkg/operator/project.go:99-134 | a later pass that finds the workspace ready and stores that accounts for what was left there |
| `RevocationRuns.RevocationExactly` | tenancy/pkg/operator/membership.go:63-87 | from a settled store a completed revocation leaves nothing bound, and the store settled, exactly when it could read its targets or nothing was bound |
| `RevocationRuns.LeftBehind` | tenancy/pkg/operator/project.go:55-68 | a deleted project that goes leaves its workspace exactly when the status had stopped naming it |
| `RevocationRuns.HomeAllAlong` | tenancy/pkg/operator/project.go:99-110 | in every history ready projects go on naming their own workspaces |
| `Lifecycle.ProjectComesUp` | tenancy/pkg/operator/project.go:42-138 | in any store a new project is ready after two passes, with every live covering membership bound in it and nothing else |
| `Lifecycle.GrantComesUp` | tenancy/pkg/operator/membership.go:50-133 | in any store the first pass of a new membership binds it in every ready project it covers |
| `Lifecycle.GrantGoes` | tenancy/pkg/operator/membership.go:63-87 | in any settled store a deleted membership goes in one pass, nothing of it stays bound |
| `Lifecycle.ProjectGoes` | tenancy/pkg/operator/project.go:55-68 | a deleted project that names its workspace goes after it, and not before |
| `RevocationRuns.RevokedWithoutList` | tenancy/pkg/operator/membership.go:63-87 | the leaking run, from every store: a deleted membership whose targets cannot be read goes and leaves its bindings |
| `RevocationRuns.RevokedWhileNotReady` | tenancy/pkg/operator/project.go:85-97 | one failed look at a workspace turns a ready project to Error, and a revocation then passes its binding by, in every store |
| `RevocationRuns.DeletedWhenPulled` | tenancy/pkg/operator/project.go:143-169 | the leaking run, from every store: a project pass binds a membership that has no finalizer yet, and deleting it leaves the binding |
| `RevocationRuns.DeletedBeforeFinalizer` | tenancy/pkg/operator/project.go:143-169 | in every history of a membership created, any project passes and the membership deleted before its own pass ran: it goes at once, one completed pass of a covered project is enough to leak, and when each pass ran to its end or without a write that is exactly when it leaks |
| `Revocation.Tenant.ReconcileMembership` | tenancy/pkg/operator/membership.go:50-133 | a completed revocation takes the binding from exactly where it looked and lets the membership go, and it completes exactly when every workspace it looks at is there and the writes suffice; a completed grant binds as desired in every ready project it covers; no other workspace, binding or right role changes; with workspaces, acceptable content and enough writes a grant does complete |
| `Revocation.Tenant.ReconcileProject` | tenancy/pkg/operator/project.go:42-138 | from any store, ready projects or not: the status goes as the workspace was found if it can be stored; a completed pass has every live covering membership bound as desired, or a deleted project gone; every other binding there, and all there when it does not get to applying memberships, is left as it was; with enough writes it does complete |
| `Revocation.Tenant.TargetClusters` | tenancy/pkg/operator/membership.go:138-175 | when they can be read the targets are exactly the ready projects the membership covers; otherwise there are none |
| `Revocation.Tenant.ApplyMembershipsTo` | tenancy/pkg/operator/project.go:140-169 | every live membership covering the project ends bound in it, every other binding there is left as it was, and only its workspace changes |
| `Revocation.Tenant.ApplyRbac` | tenancy/pkg/operator/membership.go:179-230 | when it completes the subject is bound to its role, which has its own rules; with three writes it completes exactly when the role is view, edit or admin, the kind User or Group and the name not empty; even a pass dying inside it leaves other bindings, right roles and what was as desired alone |
| `Revocation.Tenant.ApplyRole` | tenancy/pkg/operator/membership.go:185-199 | completes exactly when the role is known and a needed write can be made; then its rules are right and nothing else changed |
| `Revocation.Tenant.ApplyBinding` | tenancy/pkg/operator/membership.go:201-230 | completes exactly when the membership is acceptable and the writes suffice, and then its subject is bound to its role; a pass dying inside a replacement leaves no binding |
| `Revocation.Tenant.RevokeIn` | tenancy/pkg/operator/membership.go:65-80 | completes exactly when every target is there and there is a write for each; then the binding is gone from exactly the targets; no other binding changes |
| `Revocation.Tenant.GrantIn` | tenancy/pkg/operator/membership.go:112-126 | the binding is as desired in every target, and no other binding or workspace changes |
| `Revocation.Tenant.EnsureWorkspace` | tenancy/pkg/operator/project.go:85-115 | a workspace created in this pass is not ready in it, and no binding changes |
| `Revocation.Tenant.DeleteWorkspace` | tenancy/pkg/operator/workspaces.go:115-143 | done exactly when the status stopped naming a workspace or it is gone; in a settled store nothing is bound there then; otherwise it is marked |
| `Revocation.Tenant.StoreStatus` | tenancy/pkg/operator/project.go:185-194 | a stored status is ready, or names the workspace, exactly as the workspace was found, and a ready one names the project's own; a swallowed conflict stores nothing |
| `Workspaces.OneWorkspacePerOwner` | tenancy/pkg/operator/workspaces.go:60-106 | in every interleaving of owners, with lost replies and restarts, at most one of an owner's candidate names is its workspace |
| `Workspaces.PassesAgree` | tenancy/pkg/operator/workspaces.go:52-55 | a later pass of an owner returns the workspace an earlier pass returned |
| `Workspaces.LonePass` | tenancy/pkg/operator/workspaces.go:65-106 | left alone a pass comes to its end at the first candidate that is its own or free, and fails exactly when others hold them all |
| `Workspaces.EnsureIsLonePass` | tenancy/pkg/operator/workspaces.go:60-106 | a whole pass does to the store what its client calls, left alone, do |
| `Workspaces.DeleteMarks` | tenancy/pkg/operator/workspaces.go:134-143 | a workspace its owner deletes is marked and stays |
| `Workspaces.RunKeeps` | tenancy/pkg/operator/workspaces.go:65-103 | no step loses or relabels a workspace, and an owned workspace sits at the first candidate not held by others |
| `Workspaces.StepKeeps` | tenancy/pkg/operator/workspaces.go:65-103 | the same for one client call |
| `Workspaces.RemovalAllowsSecond` | tenancy/pkg/operator/workspaces.go:69-89 | once another owner's earlier workspace is removed, the next pass creates a second one: a concrete run |
| `Workspaces.Parent.EnsureWorkspace` | tenancy/pkg/operator/workspaces.go:60-106 | a whole pass fails exactly when others hold every candidate; otherwise it adopts or creates at the first one they do not hold and changes nothing else; a workspace the owner already has is adopted exactly when it is that one |
| `Workspaces.TearDown` | tenancy/pkg/operator/workspaces.go:115-143 | over repeated passes, with the server removing what is marked and others claiming the freed name: never done before the owner's workspace is really gone, done at once after that, and no other name and no other owner's workspace is touched |
| `Workspaces.Parent.DeleteWorkspace` | tenancy/pkg/operator/workspaces.go:117-143 | no workspace appears, goes or changes owner, and only the owner's own of that name may change; when it is not done, exactly that one is marked |
| `Workspaces.OneWorkspaceFromStart` | tenancy/pkg/operator/workspaces.go:52-106 | from a parent holding nothing of these owners, and no pass running, no interleaving gives an owner two workspaces or two passes of it two names |
| `Workspaces.EnsureTwice` | tenancy/pkg/operator/workspaces.go:52-55 | ensuring again returns the same name and writes nothing: what there is comes of the first pass |
| `CacheRuns.EveryRunConserves` | ephemeral/pkg/virtualworkspace/apidefinitions/getter.go:185-245 | in every interleaving of requests each definition ever built is in flight, cached or torn down, never in two places and never torn down twice, and every reply was built from exactly what its request resolved |
| `CacheRuns.EveryRunFromStart` | ephemeral/pkg/virtualworkspace/apidefinitions/getter.go:185-245 | the same for every run from an empty cache; every reply holds exactly the group, version and plural of what the export leads the configured entries to; and whatever the run comes to, the next reply is live |
| `CacheAnswers.LookDecides` | ephemeral/pkg/virtualworkspace/apidefinitions/getter.go:211-220 | after any run a request is answered at its look exactly when the cache holds its export under its revision, and refused exactly when not and nobody configured the server |
| `CacheAnswers.AnsweredAlone` | ephemeral/pkg/virtualworkspace/apidefinitions/getter.go:185-245 | after any run that configured the server a request left alone, with a build that does not fail, is answered with a live and right set |
| `CacheAnswers.RefusedExactly` | ephemeral/pkg/virtualworkspace/apidefinitions/getter.go:218-225 | a request is refused exactly when a step of the run was its look before configuration without a hit, or its failing build |
| `DefinitionCache.Getter.GetAPIDefinitionSet` | ephemeral/pkg/virtualworkspace/apidefinitions/getter.go:185-245 | with nobody else around: fails exactly for an unreadable schema or, without a cached set under the revision, when not configured or a build fails; else hands back what is cached then, built from what was resolved |
| `CacheRuns.RepliesAreLive` | ephemeral/pkg/virtualworkspace/apidefinitions/getter.go:211-244 | at the step in which a request replies, the set it hands back is the one the cache holds and none of its definitions is torn down |
| `CacheRuns.HitIsFresh` | ephemeral/pkg/virtualworkspace/apidefinitions/getter.go:211-217 | a cached set under the revision a request resolved was built from the very list that request would build |
| `CacheRuns.CommitKeepsConserved` | ephemeral/pkg/virtualworkspace/apidefinitions/getter.go:227-244 | the second look moves each definition to one place: into the cache, or to the torn down |
| `CacheRuns.BuildKeepsConserved` | ephemeral/pkg/virtualworkspace/apidefinitions/getter.go:304-331 | a build, failed or not, leaves every definition it made in one place |
| `Revisions.RevisionSound` | ephemeral/pkg/virtualworkspace/apidefinitions/getter.go:254-302 | equal revision strings mean the same served list and the same missing schemas |
| `Revisions.Resolve` | ephemeral/pkg/virtualworkspace/apidefinitions/getter.go:256-302 | fails exactly when an entry leads to a schema the lister fails on; else the specs are exactly the served versions of the schemas the entries lead to through the first matching export resource, entry by entry and version by version |
| `Revisions.ResolvedExactly` | ephemeral/pkg/virtualworkspace/apidefinitions/getter.go:256-302 | the same of the declared resolution |
| `Revisions.PartsAreUses` | ephemeral/pkg/virtualworkspace/apidefinitions/getter.go:281-290 | the parts of a revision name exactly the schemas that were found |
| `Revisions.PartInjective` | ephemeral/pkg/virtualworkspace/apidefinitions/getter.go:290 | a name=version part reads back |
| `DefinitionCache.BuiltHoldsAll` | ephemeral/pkg/virtualworkspace/apidefinitions/getter.go:304-331 | no definition is lost inside a build exactly when the GVRs are distinct |
| `DefinitionCache.BuiltKeyed` | ephemeral/pkg/virtualworkspace/apidefinitions/getter.go:307-312 | a built set is keyed by exactly the group, version and plural of what was resolved |
| `DefinitionCache.Getter.Build` | ephemeral/pkg/virtualworkspace/apidefinitions/getter.go:304-331 | a failed build tears down each definition it made, once |
| `DefinitionCache.Getter.Commit` | ephemeral/pkg/virtualworkspace/apidefinitions/getter.go:227-244 | adopts an equal entry and tears ours down, or replaces and tears the old one down |
| `DefinitionCache.Getter.TearDown` | ephemeral/pkg/virtualworkspace/apidefinitions/getter.go:232-241 | each definition of a set is torn down once, in any order |
| `Directory.Directory.ReviewFor` | tenancy/pkg/directory/directory.go:233-350 | the loops produce the declarative answer: one claim for each indexed workspace with a matching grant, each project with exactly the union of tenant-wide and own roles, empty unions dropped, everything sorted |
| `Directory.ReviewDetermined` | tenancy/pkg/directory/directory.go:343-348 | there is only one such list, so no iteration order shows |
| `Directory.Directory.ProjectClaims` | tenancy/pkg/directory/directory.go:315-338 | one claim per project of the workspace with a role, sorted |
| `Directory.Directory.Collect` | tenancy/pkg/directory/directory.go:250-285 | the first loop collects exactly the roles of the matching grants |
| `Directory.Directory.MembershipsIn` | tenancy/pkg/directory/directory.go:174-199 | each grant of the workspace once, strictly by name; none for the empty cluster |
| `Directory.ReviewAfter` | tenancy/pkg/directory/directory.go:118-350 | after any history in which no two tenants ever shared a workspace, the review claims a tenant, as its last event recorded it, exactly when the last event about some grant in its workspace left one for the user or one of the groups |
| `Directory.AfterIsLast` | tenancy/pkg/directory/directory.go:118-224 | what the directory holds of a tenant, project or membership is what the last event about it left, a forgotten cluster counting as the removal of everything in it |
| `Directory.CompleteExactly` | tenancy/pkg/directory/directory.go:118-139 | along any history every index entry names a tenant recorded with that workspace, and every recorded workspace has its entry all along exactly when no two tenants ever share one |
| `Directory.Replay` | tenancy/pkg/directory/directory.go:118-224 | the methods carry out a history of events as declared |
| `Directory.RecordedIsClaimed` | tenancy/pkg/directory/directory.go:286-341 | with a complete index a recorded tenant is claimed exactly when the caller belongs to its workspace |
| `Directory.AppliedIndex` | tenancy/pkg/directory/directory.go:118-224 | after any event entries are true, and complete after it exactly when no workspace is shared then |
| `Directory.RemovalKeepsIndex` | tenancy/pkg/directory/directory.go:131-139 | removing tenants with their entries keeps the index sound, and complete if it was |
| `Directory.ReindexedComplete` | tenancy/pkg/directory/directory.go:118-129 | recording a tenant keeps a complete index complete exactly when no two tenants share a workspace then |
| `Directory.ReindexedSound` | tenancy/pkg/directory/directory.go:118-129 | recording a tenant, with a changed workspace or not, keeps every index entry true |
| `Directory.Directory.UpsertTenant` | tenancy/pkg/directory/directory.go:118-129 | has the effect of the event on tenants and reverse index, and keeps every entry true |
| `Directory.Directory.RemoveTenant` | tenancy/pkg/directory/directory.go:131-139 | the same for removal |
| `Directory.Directory.ForgetCluster` | tenancy/pkg/directory/directory.go:201-224 | the loops take exactly the objects of the cluster, and the index entries of its tenants, in any order |
| `Offering.ReorderingKeepsRevision` | marketplace/pkg/offering/offering.go:118-136 | reordering declared claims with distinct resources, or verbs inside a claim, keeps the revision |
| `Offering.ClaimsCanonical` | marketplace/pkg/offering/offering.go:89-127 | and keeps the projected list |
| `Offering.OrderFreeExactly` | marketplace/pkg/offering/offering.go:89-127 | the projected list does not depend on the order of declaration, or on what sorting does with equal keys, exactly when claims on one resource say the same |
| `Offering.StableOrderFreeExactly` | marketplace/pkg/offering/offering.go:118-127 | with a stable sort the list is independent of the declared order exactly then too |
| `Offering.SwappedDeclaration` | marketplace/pkg/offering/offering.go:118-127 | two differing claims on one resource, declared the other way round, give another list under a stable sort |
| `Offering.TextOrderFreeExactly` | marketplace/pkg/offering/offering.go:138-156 | neither does the hashed text, exactly then |
| `Offering.RevisionIdentifies` | marketplace/pkg/offering/offering.go:129-159 | revisions agree exactly when the claim lists do or the digests of the two texts collide |
| `Offering.DifferentClaimsDifferentText` | marketplace/pkg/offering/offering.go:138-156 | different claim lists never give the same hashed text |
| `Offering.RevisionTextDecodes` | marketplace/pkg/offering/offering.go:138-156 | a parser reads the whole claim list back out of the hashed text |
| `Offering.ClaimRead` | marketplace/pkg/offering/offering.go:143-155 | one claim reads back from its text |
| `Offering.RevisionTextUnique` | marketplace/pkg/offering/offering.go:146-154 | the order of the label map does not show |
| `Offering.RevisionUnique` | marketplace/pkg/offering/offering.go:138-159 | a claim list has one revision |
| `Offering.Claims` | marketplace/pkg/offering/offering.go:92-127 | one projection per declared claim, sorted by group and then resource |
| `Offering.WriteClaim` | marketplace/pkg/offering/offering.go:143-155 | the loop over sorted label keys writes the text of one claim |
| `Offering.Revision` | marketplace/pkg/offering/offering.go:138-159 | writes the text and digests it; no claims give the empty revision |
| `UrlDigest.PublishedUrlIsServed` | ephemeral/pkg/endpointslice/controller.go:291-300 | behind a plain root prefix a published URL followed by a target and a remainder digests to that export and target, and stripping the returned prefix leaves the remainder |
| `UrlDigest.AcceptedExactly` | ephemeral/pkg/virtualworkspace/builder/build.go:187-246 | the URLs accepted with a non-empty target are exactly root prefix, cluster, export, "/clusters/", target and a remainder that is empty or starts with a slash; each digests to what it names |
| `UrlDigest.DigestDecodes` | ephemeral/pkg/virtualworkspace/builder/build.go:187-246 | every accepted URL with a non-empty target is such a request |
| `UrlDigest.DigestOfRequest` | ephemeral/pkg/virtualworkspace/builder/build.go:187-246 | such a request digests to what it names |
| `UrlDigest.PublishedPrefixAgrees` | ephemeral/pkg/virtualworkspace/builder/build.go:100-104 | the published and the served prefix agree exactly for plain root prefixes; "/" alone is not one |
| `UrlDigest.KeyRoundTrip` | ephemeral/pkg/virtualworkspace/apidomainkey/apidomainkey.go:35-56 | a domain key reads back exactly when both parts are non-empty and slash-free |
| `UrlDigest.KeyDecodes` | ephemeral/pkg/virtualworkspace/apidomainkey/apidomainkey.go:45-56 | every accepted key is the one built from its parts |
| `EndpointSlice.PublishTwice` | ephemeral/pkg/endpointslice/controller.go:230-265 | from any status publishing settles after one pass exactly when the endpoint holds no list; otherwise the next pass panics |
| `EndpointSlice.Slice.Publish` | ephemeral/pkg/endpointslice/controller.go:186-251 | writes exactly the one endpoint, and nothing when it is already there |
| `EndpointSlice.EqualValues` | ephemeral/pkg/endpointslice/controller.go:267-289 | on list-free content it decides equality; equal content holding a list always panics |
| `Naming.SlugFixedPoints` | tenancy/pkg/naming/naming.go:112-133 | the names Slugify leaves alone are exactly those it can produce, so it is idempotent |
| `Naming.SlugIsLabel` | tenancy/pkg/naming/naming.go:112-133 | every slug is empty or a clean label of at most 54 characters |
| `Naming.Slugify` | tenancy/pkg/naming/naming.go:116-133 | the loop computes the runs of letters and digits joined by single dashes, cut to length |
| `Naming.SlugSpells` | tenancy/pkg/naming/naming.go:112-133 | before the cut a slug is the one string with single inner dashes that has the letters and digits of the lowered name in order, together exactly where they stand together; then at most its first 54 characters without a trailing dash |
| `Naming.EveryCandidateIsLabel` | tenancy/pkg/naming/naming.go:51-103 | every candidate of both strategies is a DNS label of at most 54 characters |
| `Naming.LastCandidatesDiffer` | tenancy/pkg/naming/naming.go:46-50 | last candidates built from different suffixes differ |
| `Naming.SlugMeetsLastCandidate` | tenancy/pkg/naming/naming.go:86-103 | a plain slug is the last candidate of some object with a given suffix exactly when it ends in a dash and that suffix |
| `Naming.MembershipNameValid` | tenancy/pkg/naming/naming.go:135-153 | a membership name is a valid object name exactly when the slugs at its two ends are not empty |
| `Naming.MembershipNameTells` | tenancy/pkg/naming/naming.go:135-153 | with all else equal the name tells apart subjects, hashes, tenants and projects, exactly as far as their slugs do |
| `IdentityCache.Serve` | mcp/internal/access/client.go:106-137 | in every interleaving a lookup is answered from the cache exactly when a review made for that very identity was stored less than a lifetime before and neither replaced, swept nor invalidated since, and then with one |
| `IdentityCache.CacheKeyInjective` | mcp/internal/access/client.go:187-206 | different identities never share a key when name and groups avoid bytes 0 and 1 and the extra map avoids bytes 1 and 2 |
| `IdentityCache.CacheKeyUnique` | mcp/internal/access/client.go:193-204 | the order of the extra map does not show |
| `IdentityCache.GroupMarkCollides` | mcp/internal/access/client.go:187-192 | byte 0 in a name gives two identities one key, whatever the name |
| `IdentityCache.KeyMarkCollides` | mcp/internal/access/client.go:187-206 | so does byte 1 |
| `IdentityCache.ValueMarkCollides` | mcp/internal/access/client.go:193-206 | so does byte 2 in the extra map |
| `IdentityCache.CacheKey` | mcp/internal/access/client.go:187-206 | the loops write that key |
| `IdentityCache.Handle` | mcp/internal/access/client.go:106-137 | each critical section answers as it should and keeps: the cache holds exactly the reviews stored and since then not replaced, swept or invalidated |
| `IdentityCache.Remembered` | mcp/internal/access/client.go:122-131 | storing a review keeps that |
| `IdentityCache.LeftAlone` | mcp/internal/access/client.go:180-185 | so does an event that stores nothing |
| `IdentityCache.Client.Look` | mcp/internal/access/client.go:110-115 | a hit is a fresh entry of this identity, a miss means there is none |
| `IdentityCache.Client.Remember` | mcp/internal/access/client.go:122-131 | sweeps what has expired and stores the review under its identity |
| `IdentityCache.Client.Invalidate` | mcp/internal/access/client.go:180-185 | the identity has no entry afterwards, other identities keep theirs |
| `BindGrant.Operate` | marketplace/pkg/operator/publish.go:47-103 | over any sequence of passes dying at any write, an export whose latest pass completed has both objects or neither, as the catalog says |
| `BindGrant.Workspace.EnsureBindGrant` | marketplace/pkg/operator/publish.go:147-183 | binding implies role after every prefix of its writes; completed means both present; an existing object is left as it is |
| `BindGrant.Workspace.RemoveBindGrant` | marketplace/pkg/operator/publish.go:185-210 | one role lookup suffices: completed means both absent; the empty name changes nothing |

## Left out

- Translator endpoints without a fixed endpoint per cluster: a key that adds a second binding with another endpoint does not move the stored one, so exactness is stated for endpoints that are a function of the cluster, as `endpointFor` makes them.
- Membership and project deletion as actions of the step-by-step fan-out: it covers creation, restarts, errors and readiness going back, with specs fixed; a revocation enters it only as the state it leaves.
- Revocation.Tenant.EnsureWorkspace: names and owner labels are left to the model of `workspaces.go`; here each project has its own workspace and what is found of it is an input.
- Revocation.Tenant.DeleteWorkspace: the owner label is left to `Workspaces.Parent.DeleteWorkspace`; here a project's workspace is always its own.
- RevocationRuns.DeletedBeforeFinalizer: whether a project pass that died midway bound the membership depends on the order memberships are listed in, so the exact condition is for passes that ran to their end or without a write.
- A project deleted and created again under the same name: workspaces are addressed by project name, not by UID.
- The text of role rules and what they authorize: Kubernetes decides it.
- `seedFirstAdmin` and the tenant reconciler: its workspace part is the protocol already modelled, the seeding is one guarded write.
- IdentityCache.Client.Invalidate: does not reach a review in flight, which may store its answer afterwards, because the code makes no such promise.
- `entriesFor` and `HasEntriesFor` of the definition getter: a lookup under one of two keys.
- `Counts` and readiness flags of the directory: no bearing on its answers.
- `resolveProducerFor` and producer status in the marketplace operator: decides whether a pass runs at all, not what it writes.
- `Snapshot` of the access graph and the engaged cluster set: diagnostics.
- Multi-endpoint publishing: the controller itself writes one endpoint.
- Internals of logical cluster paths: one predicate says which targets are plain names.
- Servers, informers, authentication, TLS, command lines and bootstrap retry loops: framework calls and I/O.
