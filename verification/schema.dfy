/** The schema contract shared by validation and preprocessing, taken as an
    explicit value instead of being read from a YAML file on each call. */
module Schemas {
  import opened Base

  /** One entry of `constraints`: `{min: m}`, or a rule without a `min` key. */
  datatype Rule = Rule(min: Option<int>)

  /** `dtypes` and `constraints` keep the file's key order, which is the order
      the checks visit them in. `features` is a key of its own: preprocessing
      reads it, validation reads `numericalFeatures` and `categoricalFeatures`,
      and nothing makes the two agree. */
  datatype Schema = Schema(
    numericalFeatures: seq<string>,
    categoricalFeatures: seq<string>,
    features: seq<string>,
    target: string,
    dtypes: seq<(string, string)>,
    constraints: seq<(string, Rule)>)

  /** The columns validation demands: numerical + categorical + target. */
  function ValidatorRequired(s: Schema): set<string> {
    (set x | x in s.numericalFeatures + s.categoricalFeatures) + {s.target}
  }

  /** The columns preprocessing demands: features + target. */
  function TransformRequired(s: Schema): set<string> {
    (set x | x in s.features) + {s.target}
  }
}
