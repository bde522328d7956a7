/**
 * Response normalisation in `classify_comments`: the raw completion has every
 * "```json" removed, then every "```" removed, then surrounding whitespace
 * stripped, before it is handed to the JSON parser.
 */
module Normalizer {
  import opened PyStr

  const JsonFence: string := "```json"
  const Fence: string := "```"

  /** The cleaned response: no code fence left anywhere, no whitespace at either end. */
  function Normalize(raw: string): (r: string)
    ensures !Contains(r, Fence)
    ensures Stripped(r)
  {
    var unfenced := ReplaceAll(ReplaceAll(raw, JsonFence, ""), Fence, "");
    NoFenceAfterRemoval(ReplaceAll(raw, JsonFence, ""));
    StripKeepsAbsence(unfenced, Fence);
    Strip(unfenced)
  }

  /** `t` begins with `q`. */
  predicate StartsWith(t: string, q: string)
  {
    |q| <= |t| && t[..|q|] == q
  }

  lemma RemovalKeepsLeadingTick(u: string)
    requires StartsWith(ReplaceAll(u, Fence, ""), "`")
    ensures StartsWith(u, "`")
  {
    if |u| >= 3 && u[..3] != Fence {
      assert ReplaceAll(u, Fence, "")[0] == u[0];
    }
  }

  lemma RemovalKeepsLeadingTicks(t: string)
    ensures StartsWith(ReplaceAll(t, Fence, ""), "``") ==> StartsWith(t, "``")
  {
    if |t| >= 3 && t[..3] != Fence && StartsWith(ReplaceAll(t, Fence, ""), "``") {
      var rest := ReplaceAll(t[1..], Fence, "");
      var r := ReplaceAll(t, Fence, "");
      assert r == [t[0]] + rest;
      assert rest[..1] == r[1..2] == "`";
      RemovalKeepsLeadingTick(t[1..]);
    }
  }

  /**
   * Removing every "```" leaves none behind: a run of backticks loses three at
   * a time and keeps fewer than three, and a leftover tick never meets another
   * run because only ticks were removed between them.
   */
  lemma {:induction false} NoFenceAfterRemoval(s: string)
    ensures !Contains(ReplaceAll(s, Fence, ""), Fence)
    decreases |s|
  {
    if |s| < 3 {
    } else if s[..3] == Fence {
      NoFenceAfterRemoval(s[3..]);
      assert ReplaceAll(s, Fence, "") == ReplaceAll(s[3..], Fence, "");
    } else {
      var rest := ReplaceAll(s[1..], Fence, "");
      var r := [s[0]] + rest;
      NoFenceAfterRemoval(s[1..]);
      assert r[1..] == rest;
      RemovalKeepsLeadingTicks(s[1..]);
      assert |r| >= 3 && r[..3] == Fence ==> StartsWith(rest, "``");
    }
  }

  /** A normalised response is exactly one with no fence and no surrounding whitespace. */
  lemma NormalizeFixpoint(s: string)
    ensures Normalize(s) == s <==> !Contains(s, Fence) && Stripped(s)
  {
    if !Contains(s, Fence) && Stripped(s) {
      assert JsonFence == Fence + "json";
      if Contains(s, JsonFence) {
        ContainsPrefixOfPattern(s, Fence, "json");
      }
    }
  }

  /** Normalising twice is normalising once. */
  lemma NormalizeIdempotent(raw: string)
    ensures Normalize(Normalize(raw)) == Normalize(raw)
  {
    NormalizeFixpoint(Normalize(raw));
  }

  /** The JSON body of the fenced example reply. */
  const ExampleBody: string := "{\"Topics\":[\"Crime ambiental\"]}"

  /** The fenced reply "```json\n{"Topics":["Crime ambiental"]}\n```" is reduced to its JSON body. */
  lemma NormalizeFencedExample()
    ensures Normalize(JsonFence + "\n" + ExampleBody + "\n" + Fence) == ExampleBody
  {
    var inner := "\n" + ExampleBody + "\n";
    var raw := JsonFence + "\n" + ExampleBody + "\n" + Fence;
    assert raw == JsonFence + (inner + Fence);
    assert NoChar(inner, '`');
    ReplaceAllSkipsPrefix(inner, Fence, JsonFence, "");
    var once := ReplaceAll(raw, JsonFence, "");
    assert once == inner + Fence;
    ReplaceAllSkipsPrefix(inner, Fence, Fence, "");
    assert ReplaceAll(Fence, Fence, "") == "";
    assert ReplaceAll(once, Fence, "") == inner;
    StripNewlines(ExampleBody);
  }

  lemma StripNewlines(b: string)
    requires b != [] && Stripped(b)
    ensures Strip("\n" + b + "\n") == b
  {
    var s := "\n" + b + "\n";
    assert s[0] == '\n' && s[1..] == b + "\n";
    assert (b + "\n")[0] == b[0];
    assert TrimStart(s) == TrimStart(b + "\n") == b + "\n";
    var t := b + "\n";
    assert t[|t| - 1] == '\n' && t[..|t| - 1] == b;
    assert TrimEnd(t) == TrimEnd(b) == b;
  }
}
