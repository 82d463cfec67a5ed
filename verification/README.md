# Kiali: namespace exclusion and the delete-traffic-routing message

This project models two small pure transformations of the Kiali service-mesh console in Dafny and proves their properties.

- **Namespace service** (`business/namespaces.go`, module `Namespaces` in
  `namespaces.dfy`). The service checks once whether the cluster is
  OpenShift. `GetNamespaces` then lists OpenShift projects or Kubernetes
  namespaces, applies its error policy and drops every namespace whose name
  matches a configured exclude pattern.
  - The Kubernetes client is modelled as a datatype that holds its answers:
    `IsOpenShift`, `GetProjects` and `GetNamespaces`.
  - A nil client is `None`. Calling a method on it is a Go runtime panic,
    which the model represents as the `NilClientPanic` outcome.
  - `regexp.MatchString` is an uninterpreted function parameter. It returns
    either a match flag or a compile error.
  - The exclude list, normally read from the global configuration, is a
    parameter.
- **Delete confirmation message**
  (`frontend/src/components/IstioWizards/ConfirmDeleteTrafficRoutingModal.tsx`,
  module `DeleteTrafficRouting` in `delete_traffic_routing.dfy`). The message
  has a fixed header line and exactly three item lines, keyed
  `delete_item_1` to `delete_item_3`. They name the VirtualServices, the
  DestinationRules and, when any rule has peer authentication, the
  PeerAuthentications.
  - A JavaScript array interpolated into a template literal is written out
    as `Array.prototype.join(",")`, so the names are separated by a comma
    with no space.
  - `Split` inverts `Join` on non-empty lists of comma-free names, which
    Kubernetes object names always are.

`common.dfy` holds `Option` and the order-preserving subsequence relation.

## Model

| member | source | states |
|---|---|---|
| Namespaces.NewNamespaceService | business/namespaces.go:17-31 | the service uses projects exactly when the client is non-nil and reports OpenShift; a nil client never uses projects |
| Namespaces.Matched | business/namespaces.go:56 | the discarded error of `regexp.MatchString` never turns into a match: a pattern that fails to compile reports no match, and a match is reported exactly when the pattern compiled and matched the name |
| Namespaces.SourceList | business/namespaces.go:35-50 | the list to filter is the project list on OpenShift, or empty when that fetch failed; otherwise it is the namespace list |
| Namespaces.Keep | business/namespaces.go:52-61 | the filtered list is an order-preserving subsequence of the fetched list, no longer than it, and no element of it is matched by any exclude pattern (soundness) |
| Namespaces.KeepCount | business/namespaces.go:54-60 | an excluded namespace occurs zero times in the result, and every other namespace occurs exactly as often as it was fetched, so nothing else is dropped |
| Namespaces.KeepComplete | business/namespaces.go:54-60 | completeness: every fetched namespace that no pattern matches is in the result |
| Namespaces.KeepAppend | business/namespaces.go:53-61 | the filter works element by element: filtering a concatenation is the concatenation of the filtered parts |
| Namespaces.KeepNoPatterns | business/namespaces.go:55-60 | with an empty exclude list the result equals the fetched list |
| Namespaces.KeepIgnoresNonExcluding | business/namespaces.go:55-59 | removing a pattern that matches none of the fetched names from anywhere in the exclude list leaves the result unchanged |
| Namespaces.BadPatternIgnored | business/namespaces.go:56 | a pattern that fails to compile counts as no match, because the error is discarded, so it never excludes anything |
| Namespaces.KeepIdempotent | business/namespaces.go:52-61 | filtering an already filtered list with the same patterns changes nothing |
| Namespaces.FilterNamespaces | business/namespaces.go:52-61 | the labelled nested loop, which skips to the next namespace on the first matching pattern, computes exactly the reference filter |
| Namespaces.GetNamespaces | business/namespaces.go:34-64 | panics exactly on a nil client; fails exactly when a non-OpenShift namespace fetch fails, returning that fetch's error; a failed project fetch gives an empty list; any list returned is a sound and complete subsequence of the list from the selected source |
| Namespaces.SourceSelection | business/namespaces.go:37-50 | on OpenShift the namespace list is never consulted, and elsewhere the project list is never consulted |
| Namespaces.NamespaceFetchErrorPropagates | business/namespaces.go:44-47 | off OpenShift, a failing namespace fetch returns its error with no list and no filtering |
| Namespaces.ProjectFetchErrorSwallowed | business/namespaces.go:35-63 | on OpenShift, a failing project fetch is swallowed: the call returns an empty list and no error |
| Namespaces.SuccessfulFetchFiltered | business/namespaces.go:37-63 | after a successful fetch from the selected source, the call returns that list with the excluded namespaces removed |
| DeleteTrafficRouting.WithPeerAuthn | frontend/src/components/IstioWizards/ConfirmDeleteTrafficRoutingModal.tsx:15 | the filter keeps exactly the rules with peer authentication, and is no longer than its input |
| DeleteTrafficRouting.HasAnyPeerAuthn | frontend/src/components/IstioWizards/ConfirmDeleteTrafficRoutingModal.tsx:14-16 | true exactly when some DestinationRule has peer authentication |
| DeleteTrafficRouting.Join | frontend/src/components/IstioWizards/ConfirmDeleteTrafficRoutingModal.tsx:25-27 | interpolating the name array joins the names with "," and no space: the text starts with the first name, its length is the total length of the names plus one per separator, and comma-free names give exactly one comma fewer than there are names |
| DeleteTrafficRouting.SplitJoin | frontend/src/components/IstioWizards/ConfirmDeleteTrafficRoutingModal.tsx:25-27 | joining a non-empty list of comma-free names with "," and splitting the result gives the names back in order |
| DeleteTrafficRouting.Labelled | frontend/src/components/IstioWizards/ConfirmDeleteTrafficRoutingModal.tsx:24-27 | an item line is non-empty, starts with its kind, and has the plural "s" right after the kind exactly when it names more than one object |
| DeleteTrafficRouting.VsMessage | frontend/src/components/IstioWizards/ConfirmDeleteTrafficRoutingModal.tsx:23-28 | the VirtualService line is empty exactly when there are no VirtualServices, starts with "VirtualService" otherwise, and reads "VirtualServices" exactly when there are several |
| DeleteTrafficRouting.DrMessage | frontend/src/components/IstioWizards/ConfirmDeleteTrafficRoutingModal.tsx:31-36 | the DestinationRule line is empty exactly when there are no DestinationRules, starts with "DestinationRule" otherwise, and reads "DestinationRules" exactly when there are several |
| DeleteTrafficRouting.PaMessage | frontend/src/components/IstioWizards/ConfirmDeleteTrafficRoutingModal.tsx:39-44 | the PeerAuthentication line is non-empty exactly when there is a rule and some rule has peer authentication, starts with "PeerAuthentication" then, and is plural exactly when there are several DestinationRules in total |
| DeleteTrafficRouting.ItemKey | frontend/src/components/IstioWizards/ConfirmDeleteTrafficRoutingModal.tsx:29 | every key starts with `delete_item_`, and a one-digit counter gives a 13-character key ending in that digit |
| DeleteTrafficRouting.ItemKeysDistinct | frontend/src/components/IstioWizards/ConfirmDeleteTrafficRoutingModal.tsx:22-45 | distinct counter values give distinct keys, so the item keys never collide |
| DeleteTrafficRouting.GetDeleteMessage | frontend/src/components/IstioWizards/ConfirmDeleteTrafficRoutingModal.tsx:18-45 | the header is the fixed question; there are always exactly three items keyed delete_item_1..3; the VS line is empty exactly when there are no VirtualServices, the DR line exactly when there are no DestinationRules, and the PA line is non-empty exactly when there is a rule and some rule has peer authentication |
| DeleteTrafficRouting.FirstItemKeys | frontend/src/components/IstioWizards/ConfirmDeleteTrafficRoutingModal.tsx:22-45 | the counter values 1, 2 and 3, which `++i` yields from 0, render as the keys delete_item_1, delete_item_2 and delete_item_3 |
| DeleteTrafficRouting.DeleteMessagePlurals | frontend/src/components/IstioWizards/ConfirmDeleteTrafficRoutingModal.tsx:23-44 | each non-empty line starts with its kind; the "s" is added exactly when the count is above one; the PeerAuthentication line pluralises on the total number of DestinationRules |
| DeleteTrafficRouting.LabelledShape | frontend/src/components/IstioWizards/ConfirmDeleteTrafficRoutingModal.tsx:24-27 | the line template written out case by case, used as the step for parsing lines back: the kind, then "s" exactly when there are several names, then `: '`, the joined names and a closing quote |
| DeleteTrafficRouting.ParseSingular | frontend/src/components/IstioWizards/ConfirmDeleteTrafficRoutingModal.tsx:24-27 | the line of a single object whose name is comma-free parses back to exactly its one name |
| DeleteTrafficRouting.ParsePlural | frontend/src/components/IstioWizards/ConfirmDeleteTrafficRoutingModal.tsx:24-27 | the line of several objects with comma-free names parses back to all their names, in order |
| DeleteTrafficRouting.ParseLabelledInverse | frontend/src/components/IstioWizards/ConfirmDeleteTrafficRoutingModal.tsx:24-27 | a non-empty item line of comma-free names can be parsed back into exactly its list of names, in input order, with the plural suffix matching their number |
| DeleteTrafficRouting.DeleteMessageListsNames | frontend/src/components/IstioWizards/ConfirmDeleteTrafficRoutingModal.tsx:23-44 | the VS and DR lines list all their names in input order; the PeerAuthentication line lists every DestinationRule, not only those with peer authentication |
| DeleteTrafficRouting.PeerAuthenticationListsAllRules | frontend/src/components/IstioWizards/ConfirmDeleteTrafficRoutingModal.tsx:39-44 | with two rules of which only one has peer authentication, the PA line reads `PeerAuthentications: 'a,b'` |

## Left out

- The Kubernetes client calls `IsOpenShift`, `GetProjects` and `GetNamespaces` are not modelled. They become the fields of `Client`, which stand for the answers of one call each.
- `models.CastProjectCollection` and `models.CastNamespaceCollection` are not modelled. The fetched lists are already Kiali namespaces.
- `Namespace` carries only the name, because the exclusion reads nothing else. The other fields of the Kiali model are not represented.
- `config.Get()` is a global. Its exclude list is a parameter.
- The source re-reads `config.Get().Api.Namespaces.Exclude` for every namespace of the outer loop. The model assumes the exclude list stays constant during one call, so a configuration change in the middle of a call is not represented.
- `DestinationRuleC.hasPeerAuthentication()` is a method and names come from `metadata.name`. Both become plain record fields: `DestinationRule.hasPeerAuthentication` and the `name` fields of `VirtualService` and `DestinationRule`.
- Regular-expression semantics are not modelled. Matching is an arbitrary function from (pattern, name) to a match flag or a compile error.
- React and PatternFly rendering is not modelled. This covers the modal, its title, the Delete and Cancel buttons, their callbacks, the `delete_items` key and the style of the header element. Only the produced strings and item keys are modelled.
- DeleteTrafficRouting.DeleteMessageListsNames assumes that names contain no comma. If a name contains a comma, the joined line is ambiguous and the names cannot be recovered from it. Kubernetes object names never contain a comma.
- DeleteTrafficRouting.ParseLabelledInverse assumes that names contain no comma, for the same reason: a name such as `a,b` splits into two parts.
- DeleteTrafficRouting.ParseSingular assumes that the name contains no comma. A one-name line whose name has a comma splits into several parts and does not parse back.
- DeleteTrafficRouting.ParsePlural assumes that the names contain no comma, for the same reason.
