/** The publication file written by `write_geojson_with_metadata`: a GeoJSON
    FeatureCollection (section 3.3 of RFC 7946) with the foreign members
    `metadata` and `name` (section 6.1 of RFC 7946), laid out one feature per
    line. The JSON text of each feature is taken as given. */
module Writer {

  const Source: string := "https://github.com/highsource/verbundkarte"
  const Description: string := "Verkehrs- und Tarifverb\U{FC}nde in Deutschland"

  predicate IsDigit(c: char)
  {
    '0' <= c <= '9'
  }

  /** What `strftime('%Y-%m-%d')` produces for a four-digit year. */
  predicate IsDate(s: string)
  {
    |s| == 10 && s[4] == '-' && s[7] == '-' &&
    forall i :: 0 <= i < 10 && i != 4 && i != 7 ==> IsDigit(s[i])
  }

  /** `json.dumps(metadata, ensure_ascii=False)` with the default separators:
      no character of the three values needs escaping. */
  function MetadataJson(generated: string): (r: string)
    requires IsDate(generated)
    ensures '\n' !in r
    ensures |r| > 2 && r[0] == '{' && r[|r| - 1] == '}'
    ensures |r| >= 25 && r[15..25] == generated
  {
    var head := "{\"generated\": \"";
    var tail := "\", \"source\": \"" + Source + "\", \"description\": \"" + Description + "\"}";
    DateIsOneLine(generated);
    SourceIsOneLine();
    DescriptionIsOneLine();
    head + generated + tail
  }

  lemma DateIsOneLine(s: string)
    requires IsDate(s)
    ensures '\n' !in s
  {
    forall i | 0 <= i < |s|
      ensures s[i] != '\n'
    {
      if i != 4 && i != 7 {
        assert IsDigit(s[i]);
      }
    }
  }

  lemma SourceIsOneLine()
    ensures '\n' !in Source
  {
    assert forall i :: 0 <= i < |Source| ==> Source[i] != '\n';
  }

  lemma DescriptionIsOneLine()
    ensures '\n' !in Description
  {
    assert forall i :: 0 <= i < |Description| ==> Description[i] != '\n';
  }

  // ----------------------------------------------------------------- lines

  function HeaderLines(metadataJson: string): seq<string>
  {
    [ "{",
      "  \"metadata\": " + metadataJson + ",",
      TypeLine,
      NameLine,
      FeaturesLine ]
  }

  const TypeLine: string := "  \"type\": \"FeatureCollection\","
  const NameLine: string := "  \"name\": \"verbundkarte\","
  const FeaturesLine: string := "  \"features\": ["

  const FooterLines: seq<string> := ["  ]", "}"]

  const Indent: string := "    "

  /** Feature `i` of `n`, indented, with a comma unless it is the last. */
  function FeatureLine(feature: string, i: nat, n: nat): string
  {
    Indent + feature + (if i + 1 < n then "," else "")
  }

  function FeatureLines(features: seq<string>): (r: seq<string>)
    ensures |r| == |features|
    ensures forall i :: 0 <= i < |features| ==> r[i] == FeatureLine(features[i], i, |features|)
  {
    seq(|features|, i requires 0 <= i < |features| => FeatureLine(features[i], i, |features|))
  }

  /** The lines written to the file, without their line terminators. */
  function Layout(metadataJson: string, features: seq<string>): (lines: seq<string>)
    ensures |lines| == |features| + 7
    ensures lines[..5] == HeaderLines(metadataJson)
    ensures lines[|lines| - 2..] == FooterLines
    ensures forall i :: 0 <= i < |features| ==> lines[5 + i] == FeatureLine(features[i], i, |features|)
  {
    var lines := HeaderLines(metadataJson) + FeatureLines(features) + FooterLines;
    assert lines[|lines| - 2..] == FooterLines;
    lines
  }

  /** One feature line with the indent and, when `comma` says one was
      written, the trailing comma removed. */
  function Unindent(l: string, comma: bool): string
  {
    var end := if comma && |l| > 0 then |l| - 1 else |l|;
    if |Indent| <= end then l[|Indent|..end] else l
  }

  lemma UnindentFeatureLine(f: string, i: nat, n: nat)
    requires i < n
    ensures Unindent(FeatureLine(f, i, n), i + 1 < n) == f
  {
    var l := FeatureLine(f, i, n);
    if i + 1 < n {
      assert l[|Indent|..|l| - 1] == f;
    } else {
      assert l[|Indent|..|l|] == f;
    }
  }

  /** Reads the features back out of a laid-out file: the lines between the
      header and the footer, with the indent and the separating comma removed. */
  function ReadFeatures(lines: seq<string>): seq<string>
    requires |lines| >= 7
  {
    var body := lines[5..|lines| - 2];
    seq(|body|, i requires 0 <= i < |body| => Unindent(body[i], i + 1 < |body|))
  }

  /** The layout loses nothing: the features can be read back exactly. */
  lemma LayoutRoundTrip(metadataJson: string, features: seq<string>)
    ensures ReadFeatures(Layout(metadataJson, features)) == features
  {
    var lines := Layout(metadataJson, features);
    var r := ReadFeatures(lines);
    forall i | 0 <= i < |features|
      ensures r[i] == features[i]
    {
      assert lines[5..|lines| - 2][i] == lines[5 + i];
      UnindentFeatureLine(features[i], i, |features|);
    }
  }

  predicate EndsWithComma(l: string)
  {
    |l| > 0 && l[|l| - 1] == ','
  }

  /** With features that are JSON objects (they end in '}'), a feature line
      ends in a comma exactly when another feature follows it. */
  lemma CommaExactlyBetweenFeatures(metadataJson: string, features: seq<string>)
    requires forall f :: f in features ==> |f| > 0 && f[|f| - 1] == '}'
    ensures forall k :: 5 <= k < |features| + 5 ==>
      (EndsWithComma(Layout(metadataJson, features)[k]) <==> k + 1 < |features| + 5)
  {
    var lines := Layout(metadataJson, features);
    forall k | 5 <= k < |features| + 5
      ensures EndsWithComma(lines[k]) <==> k + 1 < |features| + 5
    {
      assert features[k - 5] in features;
      FeatureLineComma(features[k - 5], k - 5, |features|);
    }
  }

  lemma FeatureLineComma(f: string, i: nat, n: nat)
    requires |f| > 0 && f[|f| - 1] == '}'
    ensures EndsWithComma(FeatureLine(f, i, n)) <==> i + 1 < n
  {
    var l := FeatureLine(f, i, n);
    if i + 1 >= n {
      assert l == Indent + f;
      assert l[|l| - 1] == f[|f| - 1];
    }
  }

  lemma TwoFeatures(m: string)
    ensures Layout(m, ["{\"a\": 1}", "{\"b\": 2}"]) == [
      "{",
      "  \"metadata\": " + m + ",",
      "  \"type\": \"FeatureCollection\",",
      "  \"name\": \"verbundkarte\",",
      "  \"features\": [",
      "    {\"a\": 1},",
      "    {\"b\": 2}",
      "  ]",
      "}" ]
  {
    var lines := Layout(m, ["{\"a\": 1}", "{\"b\": 2}"]);
    assert lines[..5] == HeaderLines(m);
    assert lines[7..] == FooterLines;
    assert lines[5] == Indent + "{\"a\": 1}" + "," == "    {\"a\": 1},";
    assert lines[6] == Indent + "{\"b\": 2}" + "" == "    {\"b\": 2}";
  }

  // ------------------------------------------------------------------ text

  /** The file contents: every line followed by a newline. */
  function Render(lines: seq<string>): (text: string)
    ensures |lines| > 0 ==> |text| > 0 && text[|text| - 1] == '\n'
  {
    if |lines| == 0 then "" else lines[0] + "\n" + Render(lines[1..])
  }

  function FirstNewline(s: string): (i: nat)
    ensures i <= |s|
    ensures forall k :: 0 <= k < i ==> s[k] != '\n'
    ensures i < |s| ==> s[i] == '\n'
  {
    if |s| == 0 || s[0] == '\n' then 0 else 1 + FirstNewline(s[1..])
  }

  lemma {:induction false} FirstNewlineAfter(l: string, rest: string)
    requires '\n' !in l
    ensures FirstNewline(l + "\n" + rest) == |l|
    decreases |l|
  {
    if |l| > 0 {
      assert l[0] in l;
      assert (l + "\n" + rest)[1..] == l[1..] + "\n" + rest;
      FirstNewlineAfter(l[1..], rest);
    }
  }

  /** Reading a file back line by line, terminators dropped. */
  function SplitLines(text: string): seq<string>
    decreases |text|
  {
    if |text| == 0 then []
    else
      var i := FirstNewline(text);
      if i == |text| then [text] else [text[..i]] + SplitLines(text[i + 1..])
  }

  /** Lines without newlines survive writing and reading back unchanged. */
  lemma {:induction false} RenderRoundTrip(lines: seq<string>)
    requires forall l :: l in lines ==> '\n' !in l
    ensures SplitLines(Render(lines)) == lines
    decreases |lines|
  {
    if |lines| > 0 {
      var l := lines[0];
      var rest := Render(lines[1..]);
      var text := l + "\n" + rest;
      assert Render(lines) == text;
      var i := FirstNewline(text);
      assert l in lines;
      FirstNewlineAfter(l, rest);
      assert text[..i] == l && text[i + 1..] == rest;
      RenderRoundTrip(lines[1..]);
      assert lines == [l] + lines[1..];
    }
  }

  /** `write_geojson_with_metadata`'s file contents. */
  function Publish(metadataJson: string, features: seq<string>): (text: string)
    ensures |text| > 2 && text[..2] == "{\n" && text[|text| - 1] == '\n'
  {
    var lines := Layout(metadataJson, features);
    assert lines[0] == HeaderLines(metadataJson)[0];
    assert Render(lines) == "{" + "\n" + Render(lines[1..]);
    Render(lines)
  }

  /** Read back as lines, the published file has `n + 7` lines and yields the
      features it was written from. */
  lemma PublishRoundTrip(metadataJson: string, features: seq<string>)
    requires '\n' !in metadataJson
    requires forall f :: f in features ==> '\n' !in f
    ensures |SplitLines(Publish(metadataJson, features))| == |features| + 7
    ensures ReadFeatures(SplitLines(Publish(metadataJson, features))) == features
  {
    var lines := Layout(metadataJson, features);
    LayoutHasNoNewline(metadataJson, features);
    RenderRoundTrip(lines);
    LayoutRoundTrip(metadataJson, features);
  }

  /** The file written on date `generated`, read back line by line, is
      exactly the layout around that date's metadata object. */
  lemma PublishedOn(generated: string, features: seq<string>)
    requires IsDate(generated)
    requires forall f :: f in features ==> '\n' !in f
    ensures SplitLines(Publish(MetadataJson(generated), features)) == Layout(MetadataJson(generated), features)
  {
    var m := MetadataJson(generated);
    LayoutHasNoNewline(m, features);
    RenderRoundTrip(Layout(m, features));
  }

  lemma HeaderHasNoNewline(metadataJson: string)
    requires '\n' !in metadataJson
    ensures forall l :: l in HeaderLines(metadataJson) ==> '\n' !in l
  {
    var h := HeaderLines(metadataJson);
    assert '\n' !in h[1];
    TypeLineIsOneLine();
    NameLineIsOneLine();
    FeaturesLineIsOneLine();
    forall l | l in h
      ensures '\n' !in l
    {
      var k :| 0 <= k < 5 && h[k] == l;
    }
  }

  lemma TypeLineIsOneLine()
    ensures '\n' !in TypeLine
  {
    assert forall i :: 0 <= i < |TypeLine| ==> TypeLine[i] != '\n';
  }

  lemma NameLineIsOneLine()
    ensures '\n' !in NameLine
  {
    assert forall i :: 0 <= i < |NameLine| ==> NameLine[i] != '\n';
  }

  lemma FeaturesLineIsOneLine()
    ensures '\n' !in FeaturesLine
  {
    assert forall i :: 0 <= i < |FeaturesLine| ==> FeaturesLine[i] != '\n';
  }

  lemma FeatureLineHasNoNewline(f: string, i: nat, n: nat)
    requires '\n' !in f
    ensures '\n' !in FeatureLine(f, i, n)
  {
  }

  lemma LayoutHasNoNewline(metadataJson: string, features: seq<string>)
    requires '\n' !in metadataJson
    requires forall f :: f in features ==> '\n' !in f
    ensures forall l :: l in Layout(metadataJson, features) ==> '\n' !in l
  {
    var lines := Layout(metadataJson, features);
    HeaderHasNoNewline(metadataJson);
    forall k | 0 <= k < |lines|
      ensures '\n' !in lines[k]
    {
      if k < 5 {
        assert lines[..5][k] == lines[k];
      } else if k < |lines| - 2 {
        assert features[k - 5] in features;
        FeatureLineHasNoNewline(features[k - 5], k - 5, |features|);
      } else {
        assert lines[|lines| - 2..][k - (|lines| - 2)] == lines[k];
      }
    }
  }
}
