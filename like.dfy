/** pages/api/like.ts: the like counter. Each request reads the whole counter file
    `public/likes.txt`, increments one entry and writes the whole file back. */
module LikeApi {
  import opened Wrappers
  import opened Http
  import opened Json

  const NotAllowedMessage := "Método no permitido"
  const MissingFilenameMessage := "Falta filename"
  const InternalErrorMessage := "Error interno"

  /** The document a request starts from (lines 20-24): `{}` when the file does not
      exist, `JSON.parse(content || '{}')` when it does; `None` when parsing throws. */
  function LoadLikes(file: Option<string>, codec: Codec): (r: Option<Likes>)
    ensures file.None? ==> r == Some(map[])
    ensures file.Some? && file.value != "" ==> r == codec.parse(file.value)
    ensures file == Some("") ==> r == codec.parse("{}")
  {
    match file
    case None => Some(map[])
    case Some(content) => codec.parse(if content == "" then "{}" else content)
  }

  /** `likes[filename] = (likes[filename] || 0) + 1` (line 27): the entry for `key`
      goes up by exactly one, or is created at one; every other entry is kept. */
  function Bump(likes: Likes, key: string): (r: Likes)
    ensures r.Keys == likes.Keys + {key}
    ensures r[key] == Count(likes, key) + 1
    ensures forall k :: k in likes && k != key ==> r[k] == likes[k]
  {
    likes[key := Count(likes, key) + 1]
  }

  /** One request against the counter file, as a value: the file afterwards and the
      reply. `readOk` and `writeOk` say whether `readFileSync` and `writeFileSync`
      return normally. */
  datatype Step = Step(file: Option<string>, reply: Response<nat>)

  function HandleLike(file: Option<string>, verb: string, filename: Option<string>,
                      codec: Codec, readOk: bool, writeOk: bool): (s: Step)
    ensures verb != "POST" ==>
      s == Step(file, Failure(StatusMethodNotAllowed, NotAllowedMessage))
    ensures verb == "POST" && !Truthy(filename) ==>
      s == Step(file, Failure(StatusBadRequest, MissingFilenameMessage))
    ensures s.reply.Success? <==>
      verb == "POST" && Truthy(filename) && (file.Some? ==> readOk) &&
      LoadLikes(file, codec).Some? && writeOk
    ensures s.reply.Failure? ==> s.file == file
    ensures s.reply.Success? ==>
      var updated := Bump(LoadLikes(file, codec).value, filename.value);
      s.file == Some(codec.render(updated)) && s.reply.value == updated[filename.value]
    ensures verb == "POST" && Truthy(filename) && s.reply.Failure? ==>
      s.reply == Failure(StatusInternalError, InternalErrorMessage)
  {
    if verb != "POST" then Step(file, Failure(StatusMethodNotAllowed, NotAllowedMessage))
    else if !Truthy(filename) then Step(file, Failure(StatusBadRequest, MissingFilenameMessage))
    else if file.Some? && !readOk then Step(file, Failure(StatusInternalError, InternalErrorMessage))
    else match LoadLikes(file, codec)
      case None => Step(file, Failure(StatusInternalError, InternalErrorMessage))
      case Some(likes) =>
        var updated := Bump(likes, filename.value);
        if writeOk then Step(Some(codec.render(updated)), Success(updated[filename.value]))
        else Step(file, Failure(StatusInternalError, InternalErrorMessage))
  }

  /** The counter file `public/likes.txt`: absent, or its text. */
  class CounterFile {
    var file: Option<string>

    constructor (initial: Option<string>)
      ensures file == initial
    {
      file := initial;
    }

    /** The route handler: one request, run to completion. */
    method Like(verb: string, filename: Option<string>, codec: Codec,
                readOk: bool, writeOk: bool) returns (reply: Response<nat>)
      modifies this
      ensures Step(file, reply) == HandleLike(old(file), verb, filename, codec, readOk, writeOk)
    {
      if verb != "POST" {
        return Failure(StatusMethodNotAllowed, NotAllowedMessage);
      }
      if !Truthy(filename) {
        return Failure(StatusBadRequest, MissingFilenameMessage);
      }
      var likes: Likes := map[];
      if file.Some? {
        if !readOk {
          return Failure(StatusInternalError, InternalErrorMessage);
        }
        var content := file.value;
        var parsed := codec.parse(if content == "" then "{}" else content);
        if parsed.None? {
          return Failure(StatusInternalError, InternalErrorMessage);
        }
        likes := parsed.value;
      }
      var key := filename.value;
      likes := likes[key := (if key in likes then likes[key] else 0) + 1];
      if !writeOk {
        return Failure(StatusInternalError, InternalErrorMessage);
      }
      file := Some(codec.render(likes));
      reply := Success(likes[key]);
    }
  }

  /** With a faithful JSON codec, an empty counter file reads as the empty document,
      exactly as an absent one does. */
  lemma EmptyFileIsEmptyDocument(codec: Codec)
    requires FaithfulJson(codec)
    ensures LoadLikes(Some(""), codec) == Some(map[])
    ensures LoadLikes(None, codec) == Some(map[])
  {
  }

  /** The count a successful request returns is the count now stored for `filename`
      in the file it wrote, and every other stored count reads back unchanged. */
  lemma ReplyMatchesStoredCount(file: Option<string>, filename: string, codec: Codec)
    requires FaithfulJson(codec)
    requires filename != ""
    requires LoadLikes(file, codec).Some?
    ensures var s := HandleLike(file, "POST", Some(filename), codec, true, true);
      var before := LoadLikes(file, codec).value;
      var after := LoadLikes(s.file, codec);
      s.reply.Success? && after.Some? && filename in after.value &&
      after.value[filename] == s.reply.value == Count(before, filename) + 1 &&
      after.value.Keys == before.Keys + {filename} &&
      (forall k :: k in before && k != filename ==> after.value[k] == before[k])
  {
    var updated := Bump(LoadLikes(file, codec).value, filename);
    assert codec.parse(codec.render(updated)) == Some(updated);
  }

  /** The state of the counter file after `n` successful likes of `filename`. */
  function LikedTimes(file: Option<string>, filename: string, codec: Codec, n: nat): Option<string>
    decreases n
  {
    if n == 0 then file
    else HandleLike(LikedTimes(file, filename, codec, n - 1), "POST", Some(filename), codec, true, true).file
  }

  /** `n` sequential likes of the same image, starting with no counter file, are all
      acknowledged, the last one with count `n`, and leave the file holding `n` for
      that image and nothing else. */
  lemma {:induction false} SequentialLikesCount(filename: string, codec: Codec, n: nat)
    requires FaithfulJson(codec)
    requires filename != ""
    requires n >= 1
    ensures LikedTimes(None, filename, codec, n) == Some(codec.render(map[filename := n]))
    ensures HandleLike(LikedTimes(None, filename, codec, n - 1), "POST", Some(filename), codec, true, true).reply
            == Success(n)
    decreases n
  {
    var before := LikedTimes(None, filename, codec, n - 1);
    var previous: Likes := if n == 1 then map[] else map[filename := n - 1];
    if n > 1 {
      SequentialLikesCount(filename, codec, n - 1);
      assert before == Some(codec.render(previous));
      assert codec.parse(codec.render(previous)) == Some(previous);
    }
    assert LoadLikes(before, codec) == Some(previous);
    assert Bump(previous, filename) == map[filename := n];
  }

  /** The key is stored exactly as sent: liking "folder/a.jpg" against {"a.jpg": 3}
      creates a separate entry at 1 and leaves "a.jpg" at 3. */
  lemma NoPrefixStripping(codec: Codec, content: string)
    requires content != ""
    requires codec.parse(content) == Some(map["a.jpg" := 3])
    ensures var s := HandleLike(Some(content), "POST", Some("folder/a.jpg"), codec, true, true);
      s.reply == Success(1) &&
      s.file == Some(codec.render(map["a.jpg" := 3, "folder/a.jpg" := 1]))
  {
    assert Bump(map["a.jpg" := 3], "folder/a.jpg") == map["a.jpg" := 3, "folder/a.jpg" := 1];
  }

  /** A counter file that does not parse is neither reset nor overwritten: the request
      fails with 500 whatever the write would have done. */
  lemma MalformedFileIsKept(content: string, filename: string, codec: Codec, writeOk: bool)
    requires filename != ""
    requires codec.parse(if content == "" then "{}" else content).None?
    ensures HandleLike(Some(content), "POST", Some(filename), codec, true, writeOk)
            == Step(Some(content), Failure(StatusInternalError, InternalErrorMessage))
  {
  }
}
