/** The landing-page component's logic (frontend/src/components/Hero.jsx): the background
    carousel over three slides and the client-side check of a chosen file's extension. The
    browser supplies the object URL of a chosen file; the five-second timer is left to the
    caller, who calls `Tick` once per period. */
module Hero {

  import opened Tables
  import opened Text

  /** The number of background slides. */
  const SlideCount := 3

  const Extensions: seq<string> := ["jpg", "jpeg", "png"]

  const WrongExtension := "Please upload an image with .jpg, .jpeg, or .png extension."

  /** `file.name.split(".").pop().toLowerCase()`. */
  function Extension(name: string): (r: string)
    ensures '.' !in r && |r| <= |name|
  {
    LastPartIsSuffix(name, '.');
    Lower(LastPart(name, '.'))
  }

  /** Whether the page takes the chosen file. */
  predicate Accepted(name: string) {
    Extension(name) in Extensions
  }

  /** The extension is the text after the last dot (all of the name when it has none), compared
      without regard to ASCII case. */
  lemma {:induction false} AcceptedByLastDot(name: string, e: string)
    requires '.' !in e
    requires name == e || (|e| < |name| && name[|name| - |e|..] == e && name[|name| - |e| - 1] == '.')
    ensures Accepted(name) <==> Lower(e) in Extensions
  {
    LastPartIsSuffix(name, '.');
    var t := LastPart(name, '.');
    if name == e {
      assert '.' !in name;
    } else {
      assert '.' in name by { assert name[|name| - |e| - 1] == '.'; }
    }
    assert t == e;
  }

  /** A name ending in a dot and an extension `e` is accepted exactly when `e` is. */
  lemma AcceptedWithExtension(stem: string, e: string)
    requires '.' !in e
    ensures Accepted(stem + "." + e) <==> Lower(e) in Extensions
  {
    var name := stem + "." + e;
    assert name[|name| - |e|..] == e;
    assert name[|name| - |e| - 1] == '.';
    AcceptedByLastDot(name, e);
  }

  /** Whatever precedes it, a `.JPG` ending is accepted. */
  lemma UpperCaseExtensionAccepted(stem: string)
    ensures Accepted(stem + ".JPG")
  {
    var e := "JPG";
    assert '.' !in e by { assert e[0] != '.' && e[1] != '.' && e[2] != '.'; }
    AcceptedWithExtension(stem, e);
    var l := Lower(e);
    assert l[0] == 'j' && l[1] == 'p' && l[2] == 'g';
    assert l == Extensions[0];
    assert stem + "." + e == stem + ".JPG";
  }

  /** Only the last extension counts: `.png.exe` is refused. */
  lemma InnerExtensionIgnored(stem: string)
    ensures !Accepted(stem + ".png.exe")
  {
    var e := "exe";
    assert '.' !in e by { assert e[0] != '.' && e[1] != '.' && e[2] != '.'; }
    AcceptedWithExtension(stem + ".png", e);
    assert Lower(e) == e;
    assert stem + ".png" + "." + e == stem + ".png.exe";
  }

  /** Only the last extension counts: `.exe.png` is taken. */
  lemma LastExtensionDecides(stem: string)
    ensures Accepted(stem + ".exe.png")
  {
    var e := "png";
    assert '.' !in e by { assert e[0] != '.' && e[1] != '.' && e[2] != '.'; }
    AcceptedWithExtension(stem + ".exe", e);
    assert Lower(e) == e;
    assert stem + ".exe" + "." + e == stem + ".exe.png";
  }

  /** A name without a dot is its own extension: `png` is taken, `image` is not. */
  lemma DotlessNameIsItsOwnExtension(name: string)
    requires '.' !in name
    ensures Accepted(name) <==> Lower(name) in Extensions
  {
    AcceptedByLastDot(name, name);
  }

  /** The slide after slide `i`, wrapping from the last to the first. */
  function NextSlide(i: nat): (r: nat)
    requires i < SlideCount
    ensures r < SlideCount
    ensures i + 1 < SlideCount ==> r == i + 1
    ensures i + 1 == SlideCount ==> r == 0
  {
    (i + 1) % SlideCount
  }

  /** The slide shown `k` timer periods after slide `i`. */
  function SlideAfter(i: nat, k: nat): (r: nat)
    requires i < SlideCount
    ensures r < SlideCount
    decreases k
  {
    if k == 0 then i else SlideAfter(NextSlide(i), k - 1)
  }

  /** `k` ticks move the carousel `k` slides round the ring. */
  lemma {:induction false} SlideAfterWraps(i: nat, k: nat)
    requires i < SlideCount
    ensures SlideAfter(i, k) == (i + k) % SlideCount
    decreases k
  {
    if k > 0 {
      SlideAfterWraps(NextSlide(i), k - 1);
      if i + 1 == SlideCount {
        ShiftByRing(k - 1);
      }
    }
  }

  lemma ShiftByRing(m: nat)
    ensures (m + SlideCount) % SlideCount == m % SlideCount
  {
  }

  /** From any slide, every slide is shown within `SlideCount` ticks. */
  lemma EverySlideShown(i: nat, j: nat)
    requires i < SlideCount && j < SlideCount
    ensures exists k: nat :: k < SlideCount && SlideAfter(i, k) == j
  {
    var k: nat := (j - i) % SlideCount;
    SlideAfterWraps(i, k);
    assert SlideAfter(i, k) == j;
  }

  class HeroState {
    var currentImage: nat
    var selectedImage: Option<string>

    ghost predicate Valid()
      reads this
    {
      currentImage < SlideCount
    }

    constructor ()
      ensures Valid() && currentImage == 0 && selectedImage.None?
    {
      currentImage := 0;
      selectedImage := None;
    }

    /** One timer period: the carousel advances, nothing else changes. */
    method Tick()
      requires Valid()
      modifies this
      ensures Valid()
      ensures currentImage == NextSlide(old(currentImage)) && selectedImage == old(selectedImage)
    {
      currentImage := (currentImage + 1) % SlideCount;
    }

    /** `handleFileChange`: with no file nothing happens; an accepted file becomes the preview
        (its object URL); any other file raises the alert and keeps the old preview. */
    method HandleFileChange(fileName: Option<string>, objectUrl: string) returns (alert: Option<string>)
      modifies this
      ensures currentImage == old(currentImage)
      ensures fileName.None? ==> alert.None? && selectedImage == old(selectedImage)
      ensures fileName.Some? && Accepted(fileName.value) ==> alert.None? && selectedImage == Some(objectUrl)
      ensures fileName.Some? && !Accepted(fileName.value) ==>
        alert == Some(WrongExtension) && selectedImage == old(selectedImage)
    {
      alert := None;
      if fileName.Some? {
        var fileExtension := Extension(fileName.value);
        if fileExtension in Extensions {
          selectedImage := Some(objectUrl);
        } else {
          alert := Some(WrongExtension);
        }
      }
    }
  }
}
