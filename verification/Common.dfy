/** The wrapper type and the file system constants that several modules share. */
module Common {
  datatype Option<+T> = None | Some(value: T)

  const T_DIR: int := 1
  const T_FILE: int := 2
  const T_DEV: int := 3

  const DIRSIZ: nat := 14
}
