/**
 * How `read_shaders` (shader/raadhus_shader.c) builds the shader table from
 * the lines of its configuration file.
 *
 * Each line arrives already parsed: the `"%f %s"` scan, `atoi` and the GL
 * program setup are outside the model, and their outcomes are the cases of
 * `Line`.
 */
module ShaderConfig {
  import opened Wrappers

  const MaxShaders := 128

  datatype Kind = RealShader | GlCode

  /** One table entry: the dwell read from the file, the program handle, and how to draw it. */
  datatype Shader = Shader(dwell: real, prog: nat, kind: Kind)

  /**
   * A configuration line as `read_shaders` sees it: one that does not scan as
   * a number and a name; a name starting with `/`, naming a built-in GL
   * routine; or a shader file, with the handle `setup_shader` returned (0 when
   * it failed).
   */
  datatype Line =
    | Unparsed
    | GlRoutine(dwell: real, routine: nat)
    | ShaderFile(dwell: real, handle: nat)

  /** A line that makes `read_shaders` give up: a shader file that did not set up. */
  predicate Fails(l: Line)
  {
    l.ShaderFile? && l.handle == 0
  }

  /** The index of the first failing line, or `|lines|` when none fails. */
  function FirstFailure(lines: seq<Line>): (k: nat)
    ensures k <= |lines|
    ensures forall j :: 0 <= j < k ==> !Fails(lines[j])
    ensures k == |lines| || Fails(lines[k])
  {
    if lines == [] || Fails(lines[0]) then 0 else 1 + FirstFailure(lines[1..])
  }

  /** The table entry a line contributes, if any. */
  function EntryOf(l: Line): seq<Shader>
  {
    match l
    case Unparsed => []
    case GlRoutine(dwell, routine) => [Shader(dwell, routine, GlCode)]
    case ShaderFile(dwell, handle) => [Shader(dwell, handle, RealShader)]
  }

  /** The entries of the scanned lines, in file order. */
  function Entries(lines: seq<Line>): (r: seq<Shader>)
    ensures |r| <= |lines|
  {
    if lines == [] then [] else Entries(lines[..|lines| - 1]) + EntryOf(lines[|lines| - 1])
  }

  /** The entries before the first failing line. */
  function Kept(lines: seq<Line>): seq<Shader>
  {
    Entries(lines[..FirstFailure(lines)])
  }

  /** At most `n` leading elements of `s`. */
  function Take<T>(s: seq<T>, n: nat): (r: seq<T>)
    ensures |r| <= n && r <= s
    ensures |s| <= n ==> r == s
  {
    if |s| <= n then s else s[..n]
  }

  lemma {:induction false} EntriesGrow(lines: seq<Line>, i: nat, j: nat)
    requires i <= j <= |lines|
    ensures Entries(lines[..i]) <= Entries(lines[..j])
    decreases j - i
  {
    if i < j {
      EntriesGrow(lines, i, j - 1);
      assert lines[..j][..j - 1] == lines[..j - 1];
    }
  }

  /**
   * `read_shaders` over the file's lines, or `None` when the file does not
   * open. The returned table is what `shader_count` and `shaders` hold
   * afterwards; the current shader and the transition offset are reset to 0
   * in every case.
   */
  method ReadShaders(file: Option<seq<Line>>) returns (ret: int, table: seq<Shader>)
    ensures ret == 0 || ret == -1
    ensures file.None? ==> ret == -1 && table == []
    ensures file.Some? ==> table == Take(Kept(file.value), MaxShaders)
    ensures file.Some? ==> (ret == -1 <==>
      table == [] || (FirstFailure(file.value) < |file.value| && |Kept(file.value)| < MaxShaders))
    ensures ret == 0 ==> 0 < |table| <= MaxShaders
  {
    if file.None? {
      return -1, [];
    }
    var lines := file.value;
    ret := 0;
    table := [];
    var i := 0;
    while |table| < MaxShaders && i < |lines|
      invariant 0 <= i <= FirstFailure(lines)
      invariant table == Entries(lines[..i]) && |table| <= MaxShaders
      invariant ret == 0
      decreases |lines| - i
    {
      assert lines[..i + 1][..i] == lines[..i];
      match lines[i]
      case Unparsed =>
        i := i + 1;
      case GlRoutine(dwell, routine) =>
        table := table + [Shader(dwell, routine, GlCode)];
        i := i + 1;
      case ShaderFile(dwell, handle) =>
        if handle == 0 {
          ret := -1;
          break;
        }
        table := table + [Shader(dwell, handle, RealShader)];
        i := i + 1;
    }
    EntriesGrow(lines, i, FirstFailure(lines));
    if ret == -1 {
      assert i == FirstFailure(lines);
    } else if |table| == MaxShaders {
      assert Kept(lines)[..MaxShaders] == table;
    }
    if table == [] {
      ret := -1;
    }
  }
}
