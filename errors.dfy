/** The errors the synchronous resolution pipeline and the condition syntax can raise. */
module Errors {

  datatype ResolveError =
    /** A package map entry whose target is a conditional object, reached synchronously. */
    | SyncConditionalUnsupported(mapMatch: string, pkgName: string)
    /** A map key whose target is missing: reading `.substr` of `undefined`. */
    | MapTargetUndefined(mapMatch: string)
    /** A boolean conditional whose condition did not read as a boolean. */
    | ConditionNotBoolean(condition: string)
    /** An interpolation condition whose value is not a string. */
    | ConditionNotString(name: string)
    /** An interpolation condition whose string value contains a `/`. */
    | ConditionHasSeparator(name: string, parentName: string, value: string)
    /** Package-map recursion that never ends overflows the call stack. */
    | CallStackExceeded
    /** A property read on an `undefined` receiver. */
    | UndefinedReceiver(property: string)

  datatype Result<+T> = Ok(value: T) | Err(error: ResolveError)

  /** The message text the source attaches to each error. */
  function Message(e: ResolveError): string
  {
    match e
    case SyncConditionalUnsupported(m, p) =>
      "Synchronous conditional normalization not supported sync normalizing " + m + " in " + p
    case MapTargetUndefined(m) => "Cannot read property 'substr' of undefined"
    case ConditionNotBoolean(c) => "Condition " + c + " did not resolve to a boolean."
    case ConditionNotString(n) => "The condition value for " + n + " doesn't resolve to a string."
    case ConditionHasSeparator(n, p, v) =>
      "Unabled to interpolate conditional " + n + (if p != "" then " in " + p else "")
      + "\n\tThe condition value " + v + " cannot contain a \"/\" separator."
    case CallStackExceeded => "Maximum call stack size exceeded"
    case UndefinedReceiver(p) => "Cannot read property '" + p + "' of undefined"
  }
}
