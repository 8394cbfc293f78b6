/** The records the parser produces and the executor consumes:
    `struct command` (one pipeline stage) and `struct command_piped`. */
module Commands {
  import opened Wrappers

  /** Descriptor numbers of standard input and standard output. */
  const StdIn: int := 0
  const StdOut: int := 1

  /** One stage. argv holds the arguments before the NULL terminator, so
      |argv| is where the terminator sits; argc is |argv|, or one less when
      the background marker was recognised. fdIn/fdOut are the fds[] slots a
      neighbouring pipe stage fills in. */
  datatype Command = Command(
    argv: seq<string>,
    argc: int,
    ifile: Option<string>,
    ofile: Option<string>,
    bg: bool,
    fdIn: int,
    fdOut: int)

  /** A whole line: the stage records and the stage count. */
  datatype Pipeline = Pipeline(cmds: seq<Command>, cmdCount: int)
}
