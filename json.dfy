/** The likes document's JSON text format, as the two places that read it see it:
    `JSON.parse` may fail, `JSON.stringify` always produces text. The model does not
    define the text format; it takes the pair as a parameter and states the only facts
    about it that the routes rely on. */
module Json {
  import opened Wrappers

  /** A like-count document: image name to number of likes. */
  type Likes = map<string, nat>

  /** `likes[name] || 0`: the stored count, zero for a name never liked. */
  function Count(likes: Likes, name: string): (count: nat)
    ensures name in likes ==> count == likes[name]
    ensures name !in likes ==> count == 0
  {
    if name in likes then likes[name] else 0
  }

  /** `parse` is `JSON.parse` restricted to like-count documents (`None` when it
      throws); `render` is `JSON.stringify(likes, null, 2)`. */
  datatype Codec = Codec(parse: string -> Option<Likes>, render: Likes -> string)

  /** The parts of JSON's behaviour the routes depend on: `JSON.parse('{}')` is the
      empty object, `JSON.stringify` of an object is never the empty text, and parsing
      what `JSON.stringify` wrote gives back the same map. */
  ghost predicate FaithfulJson(c: Codec)
  {
    c.parse("{}") == Some(map[]) &&
    forall m: Likes :: c.render(m) != "" && c.parse(c.render(m)) == Some(m)
  }
}
