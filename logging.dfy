/** `my_print` of `exif_rename_files.py`: every message goes to the log
    `lLog`; whether it also reaches the terminal depends on the global
    verbosity `nGlobalVerbosity` and the message's own level. */
module Logging {

  const Silent: int := 0
  const Normal: int := 1
  const Verbose: int := 2

  /** The display rule of `my_print`. */
  predicate Shown(globalVerbosity: int, messageVerbosity: int)
  {
    globalVerbosity != Silent
    && (messageVerbosity == Normal || (messageVerbosity == Verbose && globalVerbosity == Verbose))
  }

  /** Silent mode shows nothing, only Normal and Verbose messages are ever
      shown, and Verbose mode shows everything any mode shows. */
  lemma ShownFacts(globalVerbosity: int, messageVerbosity: int)
    ensures globalVerbosity == Silent ==> !Shown(globalVerbosity, messageVerbosity)
    ensures Shown(globalVerbosity, messageVerbosity) ==> messageVerbosity == Normal || messageVerbosity == Verbose
    ensures Shown(globalVerbosity, messageVerbosity) ==> Shown(Verbose, messageVerbosity)
    ensures messageVerbosity == Normal ==> (Shown(globalVerbosity, messageVerbosity) <==> globalVerbosity != Silent)
  {
  }

  /** The module-level state `nGlobalVerbosity` and `lLog`, with the lines
      written to standard output kept in `console`. */
  class Logger {
    var verbosity: int
    var log: seq<string>
    var console: seq<string>

    /** The values the script starts with. */
    constructor ()
      ensures verbosity == Normal
      ensures log == ["Output log of exif_rename_files.py"]
      ensures console == []
    {
      verbosity := Normal;
      log := ["Output log of exif_rename_files.py"];
      console := [];
    }

    /** `my_print(sMessage, nMessageVerbosity)`. */
    method MyPrint(message: string, messageVerbosity: int := Normal)
      modifies this
      ensures verbosity == old(verbosity)
      ensures log == old(log) + [message]
      ensures console == old(console) + (if Shown(verbosity, messageVerbosity) then [message] else [])
    {
      log := log + [message];
      if verbosity != Silent {
        if messageVerbosity == Normal {
          console := console + [message];
        } else if messageVerbosity == Verbose && verbosity == Verbose {
          console := console + [message];
        }
      }
    }
  }
}
