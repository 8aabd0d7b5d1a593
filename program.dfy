/**
 * `void_main` once the input is mapped (main.c:67-140): decode the
 * container, write the decompressed bytes to standard output, and exit.
 */
module Program {
  import opened Wrappers
  import opened Decoder
  import opened Output

  /** EXIT_SUCCESS and EXIT_FAILURE. */
  const ExitSuccess: int := 0
  const ExitFailure: int := 1

  /**
   * Runs the decoder on the mapped bytes `file` and writes its output.
   * Returns the process exit code and the bytes that reached standard
   * output. `script` is the operating system's answers to the write calls.
   */
  method DecodeAndWrite(file: seq<bv8>, mallocOk: bool, lz4: Lz4, script: seq<WriteAnswer>)
    returns (exitCode: int, stdout: seq<bv8>)
    requires Lz4Contract(lz4)
    requires Decode(file, mallocOk, lz4).Success? ==> Answers(script, |Decode(file, mallocOk, lz4).value|)
    ensures exitCode == ExitSuccess || exitCode == ExitFailure
    // a rejected input ends the process before any byte is written
    ensures Decode(file, mallocOk, lz4).Failure? ==> exitCode == ExitFailure && stdout == []
    // otherwise standard output receives a prefix of the output, all of it exactly on success
    ensures Decode(file, mallocOk, lz4).Success? ==>
      var out := Decode(file, mallocOk, lz4).value;
      |stdout| <= |out| && stdout == out[..|stdout|] &&
      (exitCode == ExitSuccess <==> stdout == out)
  {
    match Decode(file, mallocOk, lz4)
    case Failure(_) =>
      exitCode, stdout := ExitFailure, [];
    case Success(decompressed) =>
      ghost var trace;
      var status, offset, emitted;
      status, offset, emitted, trace := WriteAll(decompressed, script);
      stdout := emitted;
      exitCode := if status.Flushed? then ExitSuccess else ExitFailure;
  }
}
