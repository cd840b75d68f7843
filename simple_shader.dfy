/**
 * shaderSourceFromSimpleRuleset in GoLTWebV2/lib/webgl-automata/src/index.ts:
 * the same condition text as ca.js, the age guard applied whenever a
 * natural death is given, and a template whose texture and coordinate
 * names are parameters.
 */
module SimpleShader {
  import opened Wrappers
  import opened Strings
  import opened Fragment
  import Automaton

  /** SimpleRuleset: `natural_death` is a number or null. */
  datatype SimpleRuleset = SimpleRuleset(survive: seq<int>, birth: seq<int>, naturalDeath: Option<int>)

  /** The survive condition, age-guarded whenever a natural death is given. */
  function SurviveCondition(ruleset: SimpleRuleset): string {
    match ruleset.naturalDeath
    case Some(limit) => AgeGuarded(Condition(ruleset.survive), limit)
    case None => Condition(ruleset.survive)
  }

  /**
   * The two builders agree except on a natural death of zero or less, which
   * index.ts still turns into an age guard and ca.js ignores.
   */
  lemma SurviveConditionsAgree(ruleset: SimpleRuleset)
    ensures match ruleset.naturalDeath
      case None => SurviveCondition(ruleset) == Automaton.SurviveCondition(ruleset.survive, 0)
      case Some(limit) =>
        (SurviveCondition(ruleset) == Automaton.SurviveCondition(ruleset.survive, limit)) <==> limit > 0
  {
    if ruleset.naturalDeath.Some? && ruleset.naturalDeath.value <= 0 {
      var c := Condition(ruleset.survive);
      assert |SurviveCondition(ruleset)| > |c|;
    }
  }

  /** The holes of the template, in order: the texture and coordinate names at each use, then the two conditions. */
  const SimpleHoles := [Texture, Coord, Texture, Coord, Coord, Texture, Texture, Coord, Survive, Birth]

  /** The texts between the holes, interleaved with them: one text more than holes. */
  function Interleave(texts: seq<string>, holes: seq<Hole>): (p: seq<Piece>)
    requires |texts| == |holes| + 1
    ensures |p| == 2 * |holes| + 1 && p[0] == Text(texts[0])
  {
    if holes == [] then [Text(texts[0])]
    else [Text(texts[0]), Slot(holes[0])] + Interleave(texts[1..], holes[1..])
  }

  /** The holes of a template, in order. */
  function Holes(p: seq<Piece>): seq<Hole> {
    if p == [] then [] else (if p[0].Slot? then [p[0].hole] else []) + Holes(p[1..])
  }

  lemma {:induction false} HolesAppend(a: seq<Piece>, b: seq<Piece>)
    ensures Holes(a + b) == Holes(a) + Holes(b)
  {
    if a != [] {
      assert (a + b)[1..] == a[1..] + b;
      HolesAppend(a[1..], b);
    } else {
      assert a + b == b;
    }
  }

  /** Interleaving puts exactly the given holes into the template, in order. */
  lemma {:induction false} InterleaveHoles(texts: seq<string>, holes: seq<Hole>)
    requires |texts| == |holes| + 1
    ensures Holes(Interleave(texts, holes)) == holes
  {
    if holes != [] {
      var head := [Text(texts[0]), Slot(holes[0])];
      HolesAppend(head, Interleave(texts[1..], holes[1..]));
      InterleaveHoles(texts[1..], holes[1..]);
      assert Holes(head) == [holes[0]] by {
        assert head[1..][1..] == [];
      }
    }
  }

  /** The template literal of shaderSourceFromSimpleRuleset, given its fixed texts. */
  function SimpleTemplate(texts: seq<string>): seq<Piece>
    requires |texts| == |SimpleHoles| + 1
  {
    [Text(VersionLine)] + Interleave(texts, SimpleHoles)
  }

  /** shaderSourceFromSimpleRuleset(ruleset, inputTextureName, inputCoordName), given the template texts. */
  function ShaderSource(t: SimpleText, ruleset: SimpleRuleset, inputTextureName: string, inputCoordName: string): string {
    Render(SimpleTemplate(Texts(t)),
      Env(inputTextureName, inputCoordName, SurviveCondition(ruleset), Condition(ruleset.birth)))
  }

  /** The shader text starts with `#version 300 es`, with no newline before it. */
  lemma ShaderSourceVersion(t: SimpleText, ruleset: SimpleRuleset, inputTextureName: string, inputCoordName: string)
    ensures var s := ShaderSource(t, ruleset, inputTextureName, inputCoordName);
      |VersionLine| <= |s| && s[..|VersionLine|] == VersionLine
  {
    var env := Env(inputTextureName, inputCoordName, SurviveCondition(ruleset), Condition(ruleset.birth));
    RenderStart(SimpleTemplate(Texts(t)), env, VersionLine);
  }

  /**
   * The holes of the template are the texture name at four places, the
   * coordinate name at four, then the survive and the birth condition.
   */
  lemma SimpleTemplateHoles(texts: seq<string>)
    requires |texts| == |SimpleHoles| + 1
    ensures Holes(SimpleTemplate(texts)) == SimpleHoles
  {
    HolesAppend([Text(VersionLine)], Interleave(texts, SimpleHoles));
    InterleaveHoles(texts, SimpleHoles);
    assert Holes([Text(VersionLine)]) == [];
  }

  /** Every hole of the template holds its value at its place in the shader text. */
  lemma ShaderSourceHoles(texts: seq<string>, ruleset: SimpleRuleset, inputTextureName: string, inputCoordName: string)
    requires |texts| == |SimpleHoles| + 1
    ensures var p := SimpleTemplate(texts);
      var env := Env(inputTextureName, inputCoordName, SurviveCondition(ruleset), Condition(ruleset.birth));
      forall i | 0 <= i < |p| && p[i].Slot? ::
        OccursAt(Render(p, env), |Render(p[..i], env)|, Value(env, p[i].hole))
  {
    RenderSlots(SimpleTemplate(texts), Env(inputTextureName, inputCoordName, SurviveCondition(ruleset), Condition(ruleset.birth)));
  }

  /**
   * The fixed texts of shaderSourceFromSimpleRuleset's template literal:
   * after its version line, then after each hole in turn (the texture
   * uniform, the input, the texture size, the x and y coordinates, the
   * neighbour fetch, the cell fetch and its coordinate, the two conditions).
   */
  datatype SimpleText = SimpleText(
    head: string,
    afterSampler: string,
    afterInput: string,
    afterSize: string,
    afterX: string,
    afterY: string,
    afterNeighbour: string,
    afterCell: string,
    afterCoord: string,
    afterSurvive: string,
    afterBirth: string)

  function Texts(t: SimpleText): (r: seq<string>)
    ensures |r| == |SimpleHoles| + 1
  {
    [t.head, t.afterSampler, t.afterInput, t.afterSize, t.afterX, t.afterY,
     t.afterNeighbour, t.afterCell, t.afterCoord, t.afterSurvive, t.afterBirth]
  }

  /** The fixed texts of the template literal in index.ts. */
  function SimpleSource(): SimpleText {
    SimpleText(
      "\n    precision mediump float;\n    uniform sampler2D ",
      ";\n    in vec2 ",
      ";\n    out vec4 output;\n    void main() {\n        ivec2 size = textureSize(",
      ", 0);\n        int neighbours = 0;\n        for(int x = -1; x < 2; x++) {\n            int xCoord = int(",
      ".x) + x;\n            if (xCoord < 0) {\n                xCoord = size.x - 1;\n            } else if (xCoord > size.x - 1) {\n                xCoord = 0;\n            }\n            for (int y = -1; y < 2; y++) {\n                if (x == 0 && y == 0) continue;\n                int yCoord = int(",
      ".y) + y;\n                if (yCoord < 0) {\n                    yCoord = size.y - 1;\n                } else if (yCoord > size.y - 1) {\n                    yCoord = 0;\n                }\n                vec4 value = texelFetch(",
      ", ivec2(xCoord, yCoord), 0);\n                if (value.r > 0.0) {\n                    neighbours += 1;\n                }\n            }\n        }\n        vec4 value = texelFetch(",
      ", ivec2(",
      "), 0);\n        bool alive = value.r > 0.0;\n        int age = int(value.g * 255.0);\n        if (alive) {\n            if (!(",
      ")) {\n                alive = false;\n                age = 0;\n            } else {\n                age += 1;\n            }\n        } else {\n            age = 0;\n            if (",
      ") {\n                alive = true;\n            }\n        }\n        output = vec4(alive, float(age)/255.0, 0, 0);\n    }")
  }

  /** shaderSourceFromSimpleRuleset(ruleset, inputTextureName, inputCoordName). */
  function ShaderSourceFromSimpleRuleset(ruleset: SimpleRuleset, inputTextureName: string, inputCoordName: string): string {
    ShaderSource(SimpleSource(), ruleset, inputTextureName, inputCoordName)
  }
}
