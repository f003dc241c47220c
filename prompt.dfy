/** `input_non_empty`: asks again until a line is non-blank. The console is
    given as the sequence of lines the user would type; running out of
    lines stands for end of input. */
module Prompt {
  import opened Wrappers
  import opened Text

  /** Reads lines until one is non-blank after `strip()`, and returns that
      line stripped together with the number of lines consumed. Every line
      before it was blank. `None` means the lines ran out, all of them
      blank. */
  method InputNonEmpty(lines: seq<string>) returns (value: Option<string>, used: nat)
    ensures used <= |lines|
    ensures value.Some? ==> 0 < used && value.value == Trim(lines[used - 1])
    ensures value.Some? ==> value.value != "" && IsTrimmed(value.value)
    ensures forall j :: 0 <= j < used && (value.None? || j < used - 1) ==> Trim(lines[j]) == ""
    ensures value.None? ==> used == |lines|
  {
    used := 0;
    while used < |lines|
      invariant used <= |lines|
      invariant forall j :: 0 <= j < used ==> Trim(lines[j]) == ""
    {
      var v := Trim(lines[used]);
      used := used + 1;
      if v != "" {
        return Some(v), used;
      }
    }
    return None, used;
  }
}
