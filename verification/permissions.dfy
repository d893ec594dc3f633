/**
  `insert_permission` and the loop of the handler that grants ownership of
  every listed file. The permission service is a function from the file id
  and the permission body to the service's reply.
 */
module Permissions {
  import opened Wrappers
  import opened DriveModel

  /** The body sent to `permissions().insert`: who, what kind of principal, which role. */
  datatype PermissionBody = PermissionBody(value: string, permType: string, role: string)

  /** The permission resource the service returns when an insert succeeds. */
  datatype Permission = Permission(id: string, value: string, permType: string, role: string)

  datatype InsertReply = Inserted(permission: Permission) | InsertError(status: int)

  type PermissionService = (FileId, PermissionBody) -> InsertReply

  /** One call `insert_permission(service, fileId, value, permType, role)`. */
  datatype PermissionCall = PermissionCall(fileId: FileId, value: string, permType: string, role: string)

  /**
    `insert_permission`: the inserted permission, or None when the service
    replies with an error, which is caught.
   */
  function InsertPermission(svc: PermissionService, call: PermissionCall): (r: Option<Permission>)
    ensures r.None? <==> svc(call.fileId, PermissionBody(call.value, call.permType, call.role)).InsertError?
    ensures r.Some? ==> r.value == svc(call.fileId, PermissionBody(call.value, call.permType, call.role)).permission
  {
    match svc(call.fileId, PermissionBody(call.value, call.permType, call.role))
    case Inserted(p) => Some(p)
    case InsertError(_) => None
  }

  /**
    The loop `for file in files: insert_permission(...)`: every call is issued
    in order, and a failed one (None) does not stop the calls after it.
   */
  method IssueAll(svc: PermissionService, calls: seq<PermissionCall>) returns (results: seq<Option<Permission>>)
    ensures |results| == |calls|
    ensures forall i :: 0 <= i < |calls| ==> results[i] == InsertPermission(svc, calls[i])
  {
    results := [];
    var i := 0;
    while i < |calls|
      invariant 0 <= i <= |calls|
      invariant |results| == i
      invariant forall j :: 0 <= j < i ==> results[j] == InsertPermission(svc, calls[j])
    {
      var r := InsertPermission(svc, calls[i]);
      results := results + [r];
      i := i + 1;
    }
  }
}
