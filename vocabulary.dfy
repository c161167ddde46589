/** The vocabulary the app works on: one record per word, and the fixed
    catalog of sample words with the memory-palace locations. */
module Vocabulary {

  /** One vocabulary entry: the word in hiragana, its English meaning and
      its romaji transliteration. Two entries may share a romaji
      (homophones) or a script form (homographs). */
  datatype Word = Word(japanese: string, meaning: string, romaji: string)

  /** The sample words, in the order the clustering pass scans them. */
  const Catalog: seq<Word> := [
    Word("ねこ", "cat", "neko"),
    Word("ねこ", "sleeping child", "neko"),
    Word("いぬ", "dog", "inu"),
    Word("さる", "monkey", "saru"),
    Word("さかな", "fish", "sakana"),
    Word("とり", "bird", "tori"),
    Word("はな", "flower", "hana"),
    Word("はな", "nose", "hana"),
    Word("ひ", "fire", "hi"),
    Word("こおり", "ice", "koori")
  ]

  /** The memory-palace rooms the clusters are meant to be placed in. */
  const Locations: seq<string> :=
    ["Front Door", "Living Room", "Kitchen", "Bedroom", "Garden", "Balcony"]
}
