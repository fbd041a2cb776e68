/**
 * The values the site generator's `main` passes around once the file system
 * and the YAML parser have done their work: the discovered pages, the parsed
 * `config.yaml`, and the navbar items built from them.
 */
module Site {
  import opened Strings

  /** The part of `serde_yaml::Value` the generator inspects; numbers, booleans and the rest are `YOther`. */
  datatype Yaml =
    | YString(str: string)
    | YMapping(pairs: seq<(Yaml, Yaml)>)
    | YSequence(items: seq<Yaml>)
    | YOther

  /** `Value::as_str`. */
  function AsStr(y: Yaml): (r: Option<string>)
    ensures r.Some? <==> y.YString?
    ensures r.Some? ==> y == YString(r.value)
  {
    if y.YString? then Some(y.str) else None
  }

  /** `Mapping::get`: the value of the first pair whose key equals `key`. */
  function Get(pairs: seq<(Yaml, Yaml)>, key: Yaml): (r: Option<Yaml>)
    ensures r.None? <==> forall k :: 0 <= k < |pairs| ==> pairs[k].0 != key
    ensures r.Some? ==> exists k :: 0 <= k < |pairs| && pairs[k] == (key, r.value)
  {
    if |pairs| == 0 then None
    else if pairs[0].0 == key then Some(pairs[0].1)
    else Get(pairs[1..], key)
  }

  /** `map.get(&Value::String(key)).and_then(|v| v.as_str())`. */
  function GetStr(pairs: seq<(Yaml, Yaml)>, key: string): Option<string> {
    match Get(pairs, YString(key))
    case Some(v) => AsStr(v)
    case None => None
  }

  /** The deserialized `config.yaml`; a missing or unparsable file gives three `None`s. */
  datatype Config = Config(
    pageOrder: Option<seq<Yaml>>,
    navbarOrder: Option<seq<Yaml>>,
    dropdowns: Option<map<string, Yaml>>)

  /** A discovered markdown page: its file stem and its title. */
  datatype Page = Page(stem: string, title: string)

  const IndexStem: string := "index"

  /** `NavbarItem`; a markdown file is identified by its stem. */
  datatype NavbarItem =
    | MarkdownFile(stem: string, title: string)
    | ExternalLink(url: string, text: string)
    | Dropdown(name: string)

  /** No two pages share a stem, as in a flat directory of `.md` files. */
  predicate DistinctStems(files: seq<Page>) {
    forall i, j :: 0 <= i < j < |files| ==> files[i].stem != files[j].stem
  }

  /** `markdown_files.iter().find(...)`: the first page with stem `name`. */
  function FindPage(files: seq<Page>, name: string): (r: Option<Page>)
    ensures r.Some? ==> r.value in files && r.value.stem == name
    ensures r.None? <==> forall k :: 0 <= k < |files| ==> files[k].stem != name
  {
    if |files| == 0 then None
    else if files[0].stem == name then Some(files[0])
    else FindPage(files[1..], name)
  }

  /** The `markdown_titles` map: each stem to its title, later pages overwriting earlier ones. */
  function Titles(files: seq<Page>): (m: map<string, string>)
    ensures forall k :: 0 <= k < |files| ==> files[k].stem in m
    ensures forall s :: s in m ==> exists k :: 0 <= k < |files| && files[k] == Page(s, m[s])
  {
    if |files| == 0 then map[]
    else
      var last := files[|files| - 1];
      Titles(files[..|files| - 1])[last.stem := last.title]
  }

  /** With distinct stems, every page's title is the one recorded for its stem. */
  lemma {:induction false} TitlesOfDistinct(files: seq<Page>, k: nat)
    requires DistinctStems(files) && k < |files|
    ensures Titles(files)[files[k].stem] == files[k].title
  {
    var n := |files|;
    if k < n - 1 {
      assert DistinctStems(files[..n - 1]);
      TitlesOfDistinct(files[..n - 1], k);
      assert files[..n - 1][k] == files[k];
    }
  }

  /** The `markdown_file_names` set handed to the link rewriter. */
  function StemSet(files: seq<Page>): (r: set<string>)
    ensures forall s :: s in r <==> exists k :: 0 <= k < |files| && files[k].stem == s
  {
    set k | 0 <= k < |files| :: files[k].stem
  }
}
