/**
  What the program asks of the operating system and of the .NET path
  library, as given values instead of calls. The model never interprets
  them: every property is stated for all file systems and all path
  libraries.
 */
module Host {
  import opened Results

  /** The `System.IO.Path` primitives the resolver uses. */
  datatype PathApi = PathApi(
    separator: char,                          // Path.DirectorySeparatorChar
    directoryName: string -> Option<string>,  // Path.GetDirectoryName (None = null)
    fileName: string -> Option<string>,       // Path.GetFileName (None = null)
    combine: (string, string) -> string,      // Path.Combine
    currentDirectory: string)                 // Directory.GetCurrentDirectory()
  {
    /** .NET's directory separator is `\` on Windows and `/` elsewhere. */
    predicate Valid()
    {
      separator == '/' || separator == '\\'
    }
  }

  /** A snapshot of the file system, as seen through the calls the program makes. */
  datatype FileSystem = FileSystem(
    directories: set<string>,                           // Directory.Exists
    listDirectories: string -> Result<seq<string>>,     // Directory.GetDirectories
    listFiles: (string, string, bool) -> Result<seq<string>>,
                                                        // Directory.GetFiles(dir, pattern,
                                                        //   recursive ? AllDirectories : TopDirectoryOnly)
    readAllText: string -> Result<string>)              // File.ReadAllText
}
