/** Word-bank file names and the labels of the topic menu. */
module Assets {
  import opened Wrappers

  const AssetsDir: string := "../assets/"
  const WordFileExtension: string := ".txt"

  /** The topics offered in the restart menu. */
  const Topics: seq<string> := ["Mix", "Technology", "Food", "Entertainment"]

  /** The file a category's words are read from. */
  function CategoryPath(category: string): (p: string)
    ensures |p| == |AssetsDir| + |category| + |WordFileExtension|
    ensures p[..|AssetsDir|] == AssetsDir
    ensures p[|AssetsDir|..|p| - |WordFileExtension|] == category
    ensures p[|p| - |WordFileExtension|..] == WordFileExtension
  {
    var p := AssetsDir + category + WordFileExtension;
    assert p[..|AssetsDir|] == AssetsDir;
    assert p[|AssetsDir|..|p| - |WordFileExtension|] == category;
    p
  }

  /** Different categories are read from different files. */
  lemma CategoryPathInjective(a: string, b: string)
    requires CategoryPath(a) == CategoryPath(b)
    ensures a == b
  {
    var p := CategoryPath(a);
    assert a == p[|AssetsDir|..|p| - |WordFileExtension|];
  }

  /** The text of a topic option in the menu. */
  function TopicLabel(topic: string): (text: string)
    ensures |text| == |topic| + 2 && text[..2] == "- "
  {
    "- " + topic
  }

  /** `sf::String::substring(2)`: the topic behind a clicked option; out of
      range (`std::out_of_range`) when the text is shorter than two. */
  function SelectedTopic(text: string): (r: Option<string>)
    ensures r.None? <==> |text| < 2
    ensures r.Some? ==> text == text[..2] + r.value
  {
    if |text| < 2 then None else Some(text[2..])
  }

  /** Stripping a label gives back its topic. */
  lemma SelectedTopicOfLabel(topic: string)
    ensures SelectedTopic(TopicLabel(topic)) == Some(topic)
  {
  }
}
