/**
 * The reference typed into the pull form: `strings.SplitN(text, ":", 2)`,
 * the name is the first part and the tag defaults to `latest`.
 */
module PullRef {
  import opened GoStrings
  import opened ImageRows

  /** The repository and tag passed to the backend's pull call. */
  datatype Ref = Ref(name: string, tag: string)

  /** The tag pulled when the reference names none. */
  const DefaultTag := "latest"

  /** The reference split of the pull action. */
  function ParsePullRef(text: string): (r: Ref)
    ensures ':' !in text ==> r == Ref(text, DefaultTag)
    ensures ':' in text ==> ':' !in r.name && r.name + ":" + r.tag == text
  {
    OccursChar(':', text);
    var item := SplitN2(text, ":");
    var name := item[0];
    var tag := if |item| == 1 then DefaultTag else item[1];
    if |item| == 2 then
      assert ':' !in name by {
        forall k | 0 <= k < |name| ensures name[k] != ':' {
          assert !MatchAt(text, ":", k);
          assert text[k..k + 1] == [text[k]];
          assert text[k] == name[k];
        }
      }
      Ref(name, tag)
    else Ref(name, tag)
  }

  /**
   * Splitting `name:tag` gives back the two parts whenever the name has no
   * colon; the tag may be empty and may itself contain colons.
   */
  lemma JoinThenParse(name: string, tag: string)
    requires ':' !in name
    ensures ParsePullRef(name + ":" + tag) == Ref(name, tag)
  {
    var text := name + ":" + tag;
    assert text[|name|] == ':';
    var r := ParsePullRef(text);
    assert r.name + ":" + r.tag == name + ":" + tag;
    assert r.name == text[..|r.name|] == name;
    assert r.tag == text[|name| + 1..] == tag;
  }

  /** Parsing then joining gives back the text whenever it holds a colon. */
  lemma ParseThenJoin(text: string)
    requires ':' in text
    ensures ParsePullRef(text).name + ":" + ParsePullRef(text).tag == text
  {
  }

  /**
   * The name a fully tagged row goes by is pulled back as that row's repository
   * and tag, provided the repository has no colon (no registry port).
   */
  lemma ImageNameParses(img: Image)
    requires img.repo != NoneLabel && img.tag != NoneLabel && ':' !in img.repo
    ensures ParsePullRef(ImageName(img)) == Ref(img.repo, img.tag)
  {
    JoinThenParse(img.repo, img.tag);
  }

  lemma PullRefWithoutTag()
    ensures ParsePullRef("alpine") == Ref("alpine", "latest")
  {
    assert ':' !in "alpine";
  }

  lemma PullRefWithTag()
    ensures ParsePullRef("alpine:3.18") == Ref("alpine", "3.18")
  {
    assert "alpine" + ":" + "3.18" == "alpine:3.18";
    JoinThenParse("alpine", "3.18");
  }

  lemma PullRefEmptyTag()
    ensures ParsePullRef("alpine:") == Ref("alpine", "")
  {
    assert "alpine" + ":" + "" == "alpine:";
    JoinThenParse("alpine", "");
  }

  lemma PullRefColonInTag()
    ensures ParsePullRef("a:b:c") == Ref("a", "b:c")
  {
    assert "a" + ":" + "b:c" == "a:b:c";
    JoinThenParse("a", "b:c");
  }

  /**
   * A registry host with a port is split at the port's colon: the host becomes
   * the name and the port, path and tag together become the tag.
   */
  lemma PullRefRegistryPort()
    ensures ParsePullRef("localhost:5000/app:v1") == Ref("localhost", "5000/app:v1")
  {
    assert "localhost" + ":" + "5000/app:v1" == "localhost:5000/app:v1";
    JoinThenParse("localhost", "5000/app:v1");
  }
}
