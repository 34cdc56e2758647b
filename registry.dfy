/** The codec table of the module: each name it registers and the pair of
    transforms registered under it. The search function looks a name up in
    this table. */
module Registry {
  import opened Common

  /** Which pair of transforms a table entry holds. */
  datatype Transcoder = MorseCodec | BinCodec | UrlCodec | EntityCodec | Ascii85Codec

  /** A `codecs.CodecInfo`: its name and its transforms. */
  datatype CodecInfo = CodecInfo(name: string, transcoder: Transcoder)

  /** `CODECS_IN_FILE`. */
  const CodecsInFile: map<string, CodecInfo> := map[
    "morse" := CodecInfo("morse", MorseCodec),
    "bin" := CodecInfo("bin", BinCodec),
    "url" := CodecInfo("url", UrlCodec),
    "entity" := CodecInfo("entity", EntityCodec),
    "ascii85" := CodecInfo("ascii85", Ascii85Codec)
  ]

  /** The table holds the five codecs of the module, each filed under its
      own name. */
  lemma TableEntries()
    ensures CodecsInFile.Keys == {"morse", "bin", "url", "entity", "ascii85"}
    ensures forall n | n in CodecsInFile :: CodecsInFile[n].name == n
    ensures forall n | n in CodecsInFile :: Registered(n)
  {
  }

  /** The names the module registers. */
  predicate Registered(name: string)
  {
    name == "morse" || name == "bin" || name == "url" || name == "entity" || name == "ascii85"
  }

  /** The search function, `CODECS_IN_FILE[name]`: the entry of that name,
      or a failure when there is none. */
  function Search(name: string): (r: Result<CodecInfo>)
    ensures r.Success? <==> Registered(name)
    ensures r.Success? ==> r.value.name == name
    ensures r.Failure? ==> r.error == UnknownCodec(name)
  {
    if name in CodecsInFile then Success(CodecsInFile[name]) else Failure(UnknownCodec(name))
  }

  /** Each name finds its own transforms: no two names share a pair. */
  lemma SearchInjective(a: string, b: string)
    requires Search(a).Success? && Search(b).Success?
    ensures Search(a).value.transcoder == Search(b).value.transcoder <==> a == b
  {
  }

  /** Which transforms each name finds. */
  lemma SearchFinds()
    ensures Search("morse") == Success(CodecInfo("morse", MorseCodec))
    ensures Search("bin") == Success(CodecInfo("bin", BinCodec))
    ensures Search("url") == Success(CodecInfo("url", UrlCodec))
    ensures Search("entity") == Success(CodecInfo("entity", EntityCodec))
    ensures Search("ascii85") == Success(CodecInfo("ascii85", Ascii85Codec))
  {
  }

  /** Names are matched exactly: neither another codec nor a different
      spelling is found. */
  lemma SearchExact()
    ensures Search("rot13") == Failure(UnknownCodec("rot13"))
    ensures Search("Morse") == Failure(UnknownCodec("Morse"))
    ensures Search("") == Failure(UnknownCodec(""))
  {
  }
}
