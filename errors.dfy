/** Go's `error` values, nil results and the panics of the libraries the core
    calls, as explicit values. */
module Errors {

  datatype Option<+T> = None | Some(value: T)

  /** A Go `(T, error)` pair where exactly one side is meaningful. */
  datatype Result<+T> = Ok(value: T) | Err(error: Error)

  datatype Error =
    // internal/core/validation.go
    | DuplicateExact(name: string, count: nat)
    | DuplicateCaseInsensitive(lower: string, variants: seq<string>)
    // internal/core/flags.go, RunE
    | NoTagsForModule
    | ModuleNotFound(requested: string)
    | TagsWithoutAction(tags: seq<string>)
    // internal/core/logging.go
    | NoInputField(moduleName: string)
    // Configure of the SMB modules
    | InvalidInputType
    // pkg/modules/targets.go
    | EmptyHost
    | OpenFailed(reason: string)
    | ResolveHostFailed(host: string, cause: Option<string>)
    | ResolveAddrFailed(host: string, cause: Option<string>)
    // panics of pflag (a flag registered twice) and reflect (NumField of a non-struct type)
    | FlagRedefined(flag: string)
    | NonStructType(typeName: string)
    // an error produced by a module's own per-target work, propagated opaquely
    | ModuleFailed(message: string)
}
