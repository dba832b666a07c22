/** internal/core/moduleChooser.go: the registry of modules. A factory is
    represented by what reflection sees in the instance it builds: the type
    of its `Input` field, or None when it has none. */
module Registry {
  import opened Errors
  import opened Shapes
  import opened Generic
  import Smb

  datatype ModuleEntry = ModuleEntry(metadata: ModuleMetadata, inputType: Option<Type>)

  /** AllModules: the SMB module, whose factory returns &smb.Module{}. */
  const AllModules: seq<ModuleEntry> := [ModuleEntry(Smb.Metadata, Some(Smb.ModuleInputType))]
}
