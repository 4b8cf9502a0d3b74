/**
 * The filter context handed to every operation filter, with the results of
 * reflection already computed, and OperationFilterContextExtensions.
 */
module OperationFilterContextExtensions {
  import opened Authorization

  /** ServiceFilterAttribute: only the name of its ServiceType is read. */
  datatype ServiceFilterAttribute = ServiceFilterAttribute(serviceTypeName: string)

  /**
   * OperationFilterContext. `filterDescriptors` is
   * ApiDescription.ActionDescriptor.FilterDescriptors; the two attribute lists
   * are what GetCustomAttributes<ServiceFilterAttribute> returns for the
   * declaring controller type and for the action method.
   */
  datatype OperationFilterContext = OperationFilterContext(
    filterDescriptors: seq<FilterDescriptor>,
    controllerServiceFilters: seq<ServiceFilterAttribute>,
    actionServiceFilters: seq<ServiceFilterAttribute>)

  /**
   * GetControllerAndActionAttributes<T>: a new list filled with the
   * controller's attributes, then AddRange of the action's. Nothing is
   * filtered out and nothing is deduplicated.
   */
  function ControllerAndActionAttributes<T>(controllerAttributes: seq<T>, actionAttributes: seq<T>): (result: seq<T>)
    ensures |result| == |controllerAttributes| + |actionAttributes|
    ensures result[..|controllerAttributes|] == controllerAttributes
    ensures result[|controllerAttributes|..] == actionAttributes
    ensures multiset(result) == multiset(controllerAttributes) + multiset(actionAttributes)
  {
    controllerAttributes + actionAttributes
  }
}
