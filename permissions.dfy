/** The object-level access decision of PollPermission (polls/permissions.py). */
module Permissions {
  import opened Wrappers
  import opened Models

  datatype HttpMethod = Get | Head | Options | Post | Put | Patch | Delete

  /** DRF's SAFE_METHODS: GET, HEAD and OPTIONS. */
  predicate IsSafe(m: HttpMethod)
  {
    m == Get || m == Head || m == Options
  }

  /** `obj.created_by == request.user`: an anonymous principal owns nothing. */
  predicate IsOwner(pr: Principal, p: Poll)
  {
    pr.Authenticated? && pr.id == p.createdBy
  }

  /** `PollPermission.has_object_permission`; `action` is the view's action name, if it has one. */
  function HasObjectPermission(m: HttpMethod, action: Option<string>, pr: Principal, obj: Poll): bool
  {
    if IsSafe(m) then true
    else if action == Some("vote") then pr.Authenticated?
    else IsOwner(pr, obj)
  }

  /** The three rules and their precedence: safe methods first, then the vote action, then ownership. */
  lemma ObjectPermissionRules(m: HttpMethod, action: Option<string>, pr: Principal, obj: Poll)
    ensures IsSafe(m) ==> HasObjectPermission(m, action, pr, obj)
    ensures !IsSafe(m) && action == Some("vote") ==>
      (HasObjectPermission(m, action, pr, obj) <==> pr.Authenticated?)
    ensures !IsSafe(m) && action != Some("vote") ==>
      (HasObjectPermission(m, action, pr, obj) <==> pr.Authenticated? && pr.id == obj.createdBy)
  {
  }
}
