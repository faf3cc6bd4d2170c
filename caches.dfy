/**
 * The two process-wide result caches: speech-synthesis results (at most 500
 * entries) and translations (at most 1000), each an independent LRU store,
 * keyed by a fingerprint of the input text and its disambiguating parameter.
 */
module ResultCaches {
  import opened Wrappers
  import opened Lru

  /** MAX_CACHE_SIZE */
  const MaxCacheSize: nat := 500
  /** MAX_TRANSLATION_CACHE_SIZE */
  const MaxTranslationCacheSize: nat := 1000

  /** The synthesis provider's response, kept as an opaque JSON text. */
  type SpeechResult = string

  /**
   * get_cache_key(text, voice_id) and get_translation_cache_key(text, target_language)
   * both fingerprint the string `text|param`; the MD5 digest taken of it is not modelled,
   * so the key is the digest's input.
   */
  function Fingerprint(text: string, param: string): (key: string)
    ensures |key| == |text| + 1 + |param|
    ensures key[..|text|] == text && key[|text|] == '|' && key[|text| + 1..] == param
  {
    text + "|" + param
  }

  /**
   * get_cache_key and get_translation_cache_key are injective in their two
   * arguments, as long as the second one (a voice id or a language code)
   * holds no '|'. Whether two requests share an entry also depends on what
   * the caller passes as the first argument (see SpeechKeyShift).
   */
  lemma FingerprintInjective(text1: string, param1: string, text2: string, param2: string)
    requires '|' !in param1 && '|' !in param2
    requires Fingerprint(text1, param1) == Fingerprint(text2, param2)
    ensures text1 == text2 && param1 == param2
  {
    var key := Fingerprint(text1, param1);
    forall i | |text1| < i < |key| ensures key[i] != '|' {
      assert key[i] == param1[i - |text1| - 1];
    }
    forall i | |text2| < i < |key| ensures key[i] != '|' {
      assert key[i] == param2[i - |text2| - 1];
    }
    assert key[|text1|] == '|' && key[|text2|] == '|';
    assert |text1| == |text2|;
    assert text1 == key[..|text1|] == text2;
  }

  /** Without that restriction the fingerprint is ambiguous. */
  lemma FingerprintAmbiguous()
    ensures Fingerprint("a|b", "c") == Fingerprint("a", "b|c")
  {
  }

  /**
   * The speech route keys its cache by the text with the language code
   * appended, and the voice id. The key cannot tell where the text ends: moving
   * the first character of the language code onto the text gives the same key,
   * so ("Hallo", "de") and ("Hallod", "e") share an entry under one voice.
   */
  lemma SpeechKeyShift(text: string, languageCode: string, voiceId: string)
    requires 0 < |languageCode|
    ensures Fingerprint(text + languageCode, voiceId)
         == Fingerprint((text + languageCode[..1]) + languageCode[1..], voiceId)
  {
    assert text + languageCode == (text + languageCode[..1]) + languageCode[1..];
  }

  /** tts_cache and translation_cache, each behind its own lock. */
  class Caches {
    const tts: Cache<string, SpeechResult>
    const translation: Cache<string, string>

    ghost predicate Valid()
      reads this, tts, translation
    {
      && tts != translation
      && tts.Valid() && tts.capacity == MaxCacheSize
      && translation.Valid() && translation.capacity == MaxTranslationCacheSize
    }

    constructor ()
      ensures Valid() && fresh(tts) && fresh(translation)
      ensures tts.entries == [] && translation.entries == []
    {
      tts := new Cache(MaxCacheSize);
      translation := new Cache(MaxTranslationCacheSize);
    }

    /** get_from_cache */
    method GetFromCache(key: string) returns (r: Option<SpeechResult>)
      requires Valid()
      modifies tts
      ensures Valid()
      ensures r == Lookup(old(tts.entries), key)
      ensures tts.entries == if r.Some? then MoveToEnd(old(tts.entries), key) else old(tts.entries)
      ensures |tts.entries| <= MaxCacheSize
    {
      r := tts.Get(key);
    }

    /** add_to_cache */
    method AddToCache(key: string, data: SpeechResult)
      requires Valid()
      modifies tts
      ensures Valid()
      ensures tts.entries == Put(old(tts.entries), MaxCacheSize, key, data)
      ensures |tts.entries| <= MaxCacheSize
    {
      tts.Add(key, data);
    }

    /** get_from_translation_cache */
    method GetFromTranslationCache(key: string) returns (r: Option<string>)
      requires Valid()
      modifies translation
      ensures Valid()
      ensures r == Lookup(old(translation.entries), key)
      ensures translation.entries ==
        if r.Some? then MoveToEnd(old(translation.entries), key) else old(translation.entries)
      ensures |translation.entries| <= MaxTranslationCacheSize
    {
      r := translation.Get(key);
    }

    /** add_to_translation_cache */
    method AddToTranslationCache(key: string, translatedText: string)
      requires Valid()
      modifies translation
      ensures Valid()
      ensures translation.entries == Put(old(translation.entries), MaxTranslationCacheSize, key, translatedText)
      ensures |translation.entries| <= MaxTranslationCacheSize
    {
      translation.Add(key, translatedText);
    }
  }
}
