/** Validation of the output directory (`validate_output_path`). The
    filesystem is abstracted: `resolve` stands for `Path.resolve` and
    `isPresent` for `Path.exists`. */
module Paths {
  import opened Options

  /** `validate_output_path`: no directory stays no directory; otherwise the
      resolved path when it exists, and `None` (after a warning) when not. */
  function ValidateOutputPath(output: Option<string>, resolve: string -> string, isPresent: string -> bool): (r: Option<string>)
    ensures output.None? ==> r.None?
    ensures r.Some? ==> output.Some? && r.value == resolve(output.value) && isPresent(r.value)
    ensures output.Some? && isPresent(resolve(output.value)) ==> r.Some?
  {
    match output
    case None => None
    case Some(p) =>
      var absolute := resolve(p);
      if isPresent(absolute) then Some(absolute) else None
  }

  /** Since resolving an absolute path gives the same path back, validating a
      validated directory changes nothing. */
  lemma ValidateOutputPathIdempotent(output: Option<string>, resolve: string -> string, isPresent: string -> bool)
    requires forall p :: resolve(resolve(p)) == resolve(p)
    ensures ValidateOutputPath(ValidateOutputPath(output, resolve, isPresent), resolve, isPresent)
         == ValidateOutputPath(output, resolve, isPresent)
  {
    if output.Some? {
      var absolute := resolve(output.value);
      assert resolve(absolute) == absolute;
    }
  }
}
