/** Small shared definitions: the optional-value wrapper and the build-time
    capacities of the parser (cparser_config.h). */
module Options {
  datatype Option<+T> = None | Some(value: T)
}

module Config {
  /** Maximum number of parameters a command can declare. */
  const MaxNumOfParams: nat := 5
  /** Maximum number of commands the registry holds. */
  const MaxNumOfCommands: nat := 25
  /** Maximum command name length, not counting the NUL terminator. */
  const MaxCommandNameLength: nat := 5
  /** A line holds the command name and at most one field per parameter. */
  const MaxFieldCount: nat := MaxNumOfParams + 1
}
