/** The tenancy objects two reconcilers turn into role bindings (tenancy/pkg/operator). */
module Tenancy {
  import opened Options

  datatype Subject = Subject(kind: string, name: string)

  /** An empty project means every project of the tenant. */
  datatype MembershipSpec = MembershipSpec(subject: Subject, role: string, project: string)

  datatype Phase = Unset | Pending | Ready | Error

  /** kcp gives each project workspace its own logical cluster and never moves it. */
  datatype Cluster = Home(project: string)

  datatype ProjectStatus = ProjectStatus(phase: Phase, cluster: Option<Cluster>)

  /** The rules written for a role; what they authorize is not part of this model. */
  datatype Rules = Rules(role: string)

  datatype Binding = Binding(roleRef: string, subject: Subject)

  predicate IsReady(s: ProjectStatus) {
    s.phase == Ready && s.cluster.Some?
  }

  predicate Covers(spec: MembershipSpec, project: string) {
    spec.project == "" || spec.project == project
  }

  predicate KnownRole(role: string) {
    role == "view" || role == "edit" || role == "admin"
  }

  /** What applyRBAC accepts: a known role for a user or a group with a name. */
  predicate Acceptable(spec: MembershipSpec) {
    && KnownRole(spec.role) && (spec.subject.kind == "User" || spec.subject.kind == "Group")
    && spec.subject.name != ""
  }

  /** The binding gives the membership's subject the membership's role. */
  predicate IsFor(b: Binding, spec: MembershipSpec) {
    Acceptable(spec) && b.roleRef == spec.role && b.subject == spec.subject
  }

  /** DesiredClusterRole */
  function DesiredRules(role: string): Option<Rules> {
    if role in {"view", "edit", "admin"} then Some(Rules(role)) else None
  }

  /** DesiredBinding */
  function DesiredBinding(spec: MembershipSpec): Option<Binding> {
    if spec.subject.kind !in {"User", "Group"} || spec.subject.name == "" || DesiredRules(spec.role) == None then None
    else Some(Binding(spec.role, spec.subject))
  }
}
