/** Versions of Kubernetes entries: image tags and annotations (internal/kubernetes/types.go). */
module ImageRef {
  import opened Common
  import opened Text
  import opened Versions
  import Cursor

  /** strings.LastIndex of one byte; -1 when absent. */
  function LastIndex(s: string, c: char): (r: int)
    ensures -1 <= r < |s|
    ensures r >= 0 ==> s[r] == c
    ensures forall i :: r < i < |s| ==> s[i] != c
  {
    if s == "" then -1
    else if s[|s| - 1] == c then |s| - 1
    else LastIndex(s[..|s| - 1], c)
  }

  lemma {:induction false} LastIndexUnique(s: string, c: char, r: int)
    requires -1 <= r < |s| && (r >= 0 ==> s[r] == c) && forall i :: r < i < |s| ==> s[i] != c
    ensures LastIndex(s, c) == r
  {
  }

  /** What follows the last colon, unless a slash follows it. */
  function TagOf(name: string): string {
    var colon := LastIndex(name, ':');
    if colon == -1 || LastIndex(name, '/') > colon then "" else name[colon + 1..]
  }

  function ParseImageTag(image: string): string { TagOf(Cut(image, '@').0) }

  /** A repository: no digest mark, and no colon behind its last slash (a port may come before it). */
  ghost predicate IsRepository(repo: string) {
    '@' !in repo && (forall i :: LastIndex(repo, '/') < i < |repo| ==> repo[i] != ':')
  }

  ghost predicate IsTag(tag: string) { '@' !in tag && ':' !in tag && '/' !in tag }

  function PrintName(repo: string, tag: Option<string>): string {
    if tag.Some? then repo + ":" + tag.value else repo
  }

  function PrintImage(repo: string, tag: Option<string>, digest: Option<string>): string {
    PrintName(repo, tag) + (if digest.Some? then "@" + digest.value else "")
  }

  lemma TagOfTagged(repo: string, tag: string)
    requires IsTag(tag)
    ensures TagOf(repo + ":" + tag) == tag
  {
    var name := repo + ":" + tag;
    assert forall i :: |repo| < i < |name| ==> name[i] == tag[i - |repo| - 1];
    LastIndexUnique(name, ':', |repo|);
    assert name[|repo| + 1..] == tag;
  }

  lemma TagOfUntagged(repo: string)
    requires IsRepository(repo)
    ensures TagOf(repo) == ""
  {
  }

  lemma DigestIgnored(name: string, digest: Option<string>)
    requires '@' !in name
    ensures ParseImageTag(name + (if digest.Some? then "@" + digest.value else "")) == TagOf(name)
  {
    if digest.Some? {
      CutPresent(name, '@', digest.value);
      assert name + ("@" + digest.value) == name + "@" + digest.value;
    } else {
      CutAbsent(name, '@');
      assert name + "" == name;
    }
  }

  lemma NameHasNoDigest(repo: string, tag: Option<string>)
    requires '@' !in repo && (tag.Some? ==> '@' !in tag.value)
    ensures '@' !in PrintName(repo, tag)
  {
  }

  /** A printed reference gives back its tag, or nothing when it has none, with a port, a digest, both or neither. */
  lemma ImageRoundTrip(repo: string, tag: Option<string>, digest: Option<string>)
    requires IsRepository(repo) && (tag.Some? ==> IsTag(tag.value))
    ensures ParseImageTag(PrintImage(repo, tag, digest)) == if tag.Some? then tag.value else ""
  {
    var name := PrintName(repo, tag);
    NameHasNoDigest(repo, tag);
    DigestIgnored(name, digest);
    if tag.Some? {
      TagOfTagged(repo, tag.value);
    } else {
      TagOfUntagged(repo);
    }
  }

  /** Without that condition on the repository a port reads as a tag, exactly when no slash follows its colon. */
  lemma {:induction false} UntaggedReadsAs(repo: string)
    requires '@' !in repo
    ensures ParseImageTag(repo) == "" <==>
            || LastIndex(repo, ':') == -1 || LastIndex(repo, '/') > LastIndex(repo, ':')
            || LastIndex(repo, ':') == |repo| - 1
  {
    CutAbsent(repo, '@');
  }

  const VERSION_ANNOTATION := "toolhive.stacklok.dev/registry-version"
  const DEFAULT_VERSION := "1.0.0"

  function ResolveServerVersion(annotations: map<string, string>, image: string): string {
    var annotated := TrimSpace(if VERSION_ANNOTATION in annotations then annotations[VERSION_ANNOTATION] else "");
    if annotated != "" && IsPublishable(annotated) then annotated
    else
      var tag := TrimSpace(ParseImageTag(image));
      if IsPublishable(tag) then tag else DEFAULT_VERSION
  }

  lemma DefaultIsPublishable()
    ensures IsPublishable(DEFAULT_VERSION)
  {
    var nums := ["1", "0", "0"];
    assert Join(["0", "0"], '.') == "0.0" by {
      assert ["0", "0"][1..] == ["0"];
    }
    assert nums[1..] == ["0", "0"];
    assert Join(nums, '.') == DEFAULT_VERSION;
    NumbersPublishable(nums);
  }

  /** Whatever the annotations and the image say, the resolved version may be published. */
  lemma ResolvedIsPublishable(annotations: map<string, string>, image: string)
    ensures IsPublishable(ResolveServerVersion(annotations, image))
  {
    DefaultIsPublishable();
  }

  /** An unannotated entry takes a publishable tag of its image, spaces aside, through digest and port. */
  lemma TagIsTheVersion(annotations: map<string, string>, repo: string, tag: string, digest: Option<string>)
    requires VERSION_ANNOTATION !in annotations && IsRepository(repo) && IsTag(tag) && IsPublishable(TrimSpace(tag))
    ensures ResolveServerVersion(annotations, PrintImage(repo, Some(tag), digest)) == TrimSpace(tag)
  {
    ImageRoundTrip(repo, Some(tag), digest);
  }

  /** A publishable annotation is the version, white space around it aside, whatever the image says. */
  lemma AnnotationIsTheVersion(annotations: map<string, string>, image: string, pre: string, v: string, post: string)
    requires VERSION_ANNOTATION in annotations && annotations[VERSION_ANNOTATION] == pre + v + post
    requires AllIn(pre, IsSpace) && AllIn(post, IsSpace) && IsPublishable(v)
    ensures ResolveServerVersion(annotations, image) == v
  {
    Cursor.PublishableChars(v);
    assert v[0] in v && v[|v| - 1] in v;
    TrimSpaceOf(pre, v, post);
  }

  /** Any other annotation is ignored; without a publishable tag the version is 1.0.0. */
  lemma FallbackVersion(annotations: map<string, string>, image: string)
    requires VERSION_ANNOTATION in annotations ==> !IsPublishable(TrimSpace(annotations[VERSION_ANNOTATION]))
    ensures ResolveServerVersion(annotations, image) == ResolveServerVersion(map[], image)
    ensures !IsPublishable(TrimSpace(ParseImageTag(image))) ==> ResolveServerVersion(annotations, image) == "1.0.0"
  {
    TrimSpaceOfBlank("");
  }
}
