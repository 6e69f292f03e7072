/**
 * The pricing page's feature lists (`render_features_html`) and the
 * `subscription_required` view decorator's decision.
 */
module Subscriptions {
  import opened Wrappers
  import Text

  /** One entry of the feature table: its text, whether the plan has it, and the plan it is listed under. */
  datatype Feature = Feature(text: string, available: bool, plan: string)

  /** The feature table, in declaration order: the free plan's entries, then premium's, then pro's. */
  const FreeEntries: seq<(string, bool)> := [
    ("10k credits per day", true),
    ("Practice Test generation", true),
    ("Flashcard generation", true),
    ("Writing Task AI feedback", true),
    ("AI Chatbot", true),
    ("No Program Access", false),
    ("No Progress Tracking", false),
    ("No access to early features", false)
  ]

  const PremiumEntries: seq<(string, bool)> := [
    ("300k credits per month", true),
    ("Everything in Free Plan", true),
    ("Progress Tracking", true),
    ("Access to 3 programs per month", true),
    ("Access to early features", false),
    ("Advanced progress tracking", false)
  ]

  const ProEntries: seq<(string, bool)> := [
    ("Everything in Premium", true),
    ("1 million credits per month", true),
    ("Unlimited Program Access", true),
    ("Access to early features", true)
  ]

  /** Entries `(text, available)` listed under one plan. */
  function Tagged(entries: seq<(string, bool)>, plan: string): (r: seq<Feature>)
    ensures |r| == |entries|
    ensures forall i :: 0 <= i < |r| ==> r[i] == Feature(entries[i].0, entries[i].1, plan)
  {
    seq(|entries|, i requires 0 <= i < |entries| => Feature(entries[i].0, entries[i].1, plan))
  }

  const FreeFeatures := Tagged(FreeEntries, "free")
  const PremiumFeatures := Tagged(PremiumEntries, "premium")
  const ProFeatures := Tagged(ProEntries, "pro")
  const Features: seq<Feature> := FreeFeatures + PremiumFeatures + ProFeatures

  const CheckIcon := "<i class=\"fas fa-check-circle\"></i>"
  const CrossIcon := "<i class=\"fas fa-xmark\"></i>"

  /** The features listed under `plan`, in table order. */
  function ForPlan(features: seq<Feature>, plan: string): (r: seq<Feature>)
    ensures |r| <= |features|
    ensures forall i :: 0 <= i < |r| ==> r[i].plan == plan && r[i] in features
    ensures forall i :: 0 <= i < |features| && features[i].plan == plan ==> features[i] in r
  {
    if |features| == 0 then []
    else
      var rest := ForPlan(features[1..], plan);
      assert forall i :: 1 <= i < |features| ==> features[i] == features[1..][i - 1];
      if features[0].plan == plan then [features[0]] + rest else rest
  }

  /** The filter keeps table order: the features of two consecutive stretches of the table stay in sequence. */
  lemma {:induction false} ForPlanAppend(xs: seq<Feature>, ys: seq<Feature>, plan: string)
    ensures ForPlan(xs + ys, plan) == ForPlan(xs, plan) + ForPlan(ys, plan)
  {
    if |xs| > 0 {
      assert (xs + ys)[1..] == xs[1..] + ys;
      ForPlanAppend(xs[1..], ys, plan);
    } else {
      assert xs + ys == ys;
    }
  }

  /** Filtering twice by the same plan is filtering once. */
  lemma {:induction false} ForPlanIdempotent(xs: seq<Feature>, plan: string)
    ensures ForPlan(ForPlan(xs, plan), plan) == ForPlan(xs, plan)
  {
    if |xs| > 0 {
      ForPlanIdempotent(xs[1..], plan);
      if xs[0].plan == plan {
        var r := ForPlan(xs, plan);
        assert r == [xs[0]] + ForPlan(xs[1..], plan);
        assert r[1..] == ForPlan(xs[1..], plan);
      }
    }
  }

  /** `<li>{icon} {text}</li>`, with the check icon exactly for available features. */
  function RenderItem(f: Feature): (r: string)
    ensures f.available ==> Text.StartsWith(r, "<li>" + CheckIcon)
    ensures !f.available ==> Text.StartsWith(r, "<li>" + CrossIcon)
    ensures Text.EndsWith(r, f.text + "</li>")
    ensures SingleLine(f.text) ==> '\n' !in r
  {
    MarkupSingleLine();
    "<li>" + (if f.available then CheckIcon else CrossIcon) + " " + f.text + "</li>"
  }

  /** `sep.join(parts)`. */
  function Join(parts: seq<string>, sep: string): (r: string)
    ensures parts == [] ==> r == []
    ensures |parts| == 1 ==> r == parts[0]
  {
    if |parts| == 0 then []
    else if |parts| == 1 then parts[0]
    else Join(parts[..|parts| - 1], sep) + sep + parts[|parts| - 1]
  }

  /** `s.split(c)` for a one-character separator: the pieces between the occurrences of `c`. */
  function SplitOn(s: string, c: char): (parts: seq<string>)
    ensures |parts| >= 1
    ensures forall i :: 0 <= i < |parts| ==> c !in parts[i]
    decreases |s|
  {
    var last := Text.AfterLast(s, c);
    if |last| == |s| then
      assert last == s;
      [s]
    else
      var init := SplitOn(s[..|s| - |last| - 1], c);
      PiecesAppend(init, last, c);
      init + [last]
  }

  /** Adding a piece without `c` to pieces without `c`. */
  lemma PiecesAppend(init: seq<string>, last: string, c: char)
    requires forall i :: 0 <= i < |init| ==> c !in init[i]
    requires c !in last
    ensures forall i :: 0 <= i < |init| + 1 ==> c !in (init + [last])[i]
  {
  }

  /** Splitting `a + c + b`, where `b` has no `c`, splits `a` and ends with `b`. */
  lemma SplitOnStep(a: string, c: char, b: string)
    requires c !in b
    ensures SplitOn(a + [c] + b, c) == SplitOn(a, c) + [b]
  {
    var s := a + [c] + b;
    Text.AfterLastOfJoin(a, c, b);
    assert s[..|s| - |b| - 1] == a;
  }

  /** Joining pieces free of `c` with `c` and splitting at `c` gives the pieces back. */
  lemma {:induction false} SplitJoin(parts: seq<string>, c: char)
    requires |parts| >= 1
    requires forall i :: 0 <= i < |parts| ==> c !in parts[i]
    ensures SplitOn(Join(parts, [c]), c) == parts
    decreases |parts|
  {
    if |parts| == 1 {
      Text.AfterLastAbsent(parts[0], c);
    } else {
      var init := parts[..|parts| - 1];
      var last := parts[|parts| - 1];
      SplitOnStep(Join(init, [c]), c, last);
      SplitJoin(init, c);
      assert parts == init + [last];
    }
  }

  function RenderAll(features: seq<Feature>): (r: seq<string>)
    ensures |r| == |features|
    ensures forall i :: 0 <= i < |features| ==> r[i] == RenderItem(features[i])
  {
    seq(|features|, i requires 0 <= i < |features| => RenderItem(features[i]))
  }

  /** `render_features_html(plan)`: one list item per feature of the plan, joined by newlines. */
  function RenderFeaturesHtml(plan: string): (r: string)
    ensures ForPlan(Features, plan) == [] ==> r == []
    ensures ForPlan(Features, plan) != [] ==> SplitOn(r, '\n') == RenderAll(ForPlan(Features, plan))
  {
    PlanTextsSingleLine(plan);
    RenderedLines(ForPlan(Features, plan));
    Join(RenderAll(ForPlan(Features, plan)), "\n")
  }

  /** Features whose texts have no line break render to items that split back apart at the line breaks. */
  lemma RenderedLines(features: seq<Feature>)
    requires forall i :: 0 <= i < |features| ==> SingleLine(features[i].text)
    ensures features != [] ==> SplitOn(Join(RenderAll(features), "\n"), '\n') == RenderAll(features)
  {
    var items := RenderAll(features);
    if items != [] {
      forall i | 0 <= i < |items| ensures '\n' !in items[i] {
        assert SingleLine(features[i].text);
      }
      SplitJoin(items, '\n');
    }
  }

  // ---------------------------------------------------------------------
  // No line breaks in the table

  /** Text without a line break. */
  predicate SingleLine(s: string) {
    forall k :: 0 <= k < |s| ==> s[k] != '\n'
  }

  lemma MarkupSingleLine()
    ensures '\n' !in CheckIcon && '\n' !in CrossIcon
    ensures '\n' !in "<li>" && '\n' !in " " && '\n' !in "</li>"
  {
    assert SingleLine(CheckIcon) && SingleLine(CrossIcon);
    assert SingleLine("<li>") && SingleLine(" ") && SingleLine("</li>");
  }

  lemma FreeHeadSingleLine()
    ensures SingleLine(FreeEntries[0].0) && SingleLine(FreeEntries[1].0)
            && SingleLine(FreeEntries[2].0) && SingleLine(FreeEntries[3].0)
  {
  }

  lemma FreeTailSingleLine()
    ensures SingleLine(FreeEntries[4].0) && SingleLine(FreeEntries[5].0)
            && SingleLine(FreeEntries[6].0) && SingleLine(FreeEntries[7].0)
  {
  }

  lemma PremiumHeadSingleLine()
    ensures SingleLine(PremiumEntries[0].0) && SingleLine(PremiumEntries[1].0)
            && SingleLine(PremiumEntries[2].0)
  {
  }

  lemma PremiumTailSingleLine()
    ensures SingleLine(PremiumEntries[3].0) && SingleLine(PremiumEntries[4].0)
            && SingleLine(PremiumEntries[5].0)
  {
  }

  lemma ProSingleLine()
    ensures SingleLine(ProEntries[0].0) && SingleLine(ProEntries[1].0)
            && SingleLine(ProEntries[2].0) && SingleLine(ProEntries[3].0)
  {
  }

  /** Every feature text of the table fits on one line. */
  lemma TableSingleLine()
    ensures forall i :: 0 <= i < |Features| ==> SingleLine(Features[i].text)
  {
    FreeHeadSingleLine();
    FreeTailSingleLine();
    PremiumHeadSingleLine();
    PremiumTailSingleLine();
    ProSingleLine();
    assert forall i :: 0 <= i < |FreeFeatures| ==> SingleLine(FreeFeatures[i].text);
    assert forall i :: 0 <= i < |PremiumFeatures| ==> SingleLine(PremiumFeatures[i].text);
    assert forall i :: 0 <= i < |ProFeatures| ==> SingleLine(ProFeatures[i].text);
  }

  /** So is every feature listed under a plan. */
  lemma PlanTextsSingleLine(plan: string)
    ensures forall i :: 0 <= i < |ForPlan(Features, plan)| ==> SingleLine(ForPlan(Features, plan)[i].text)
  {
    TableSingleLine();
    var r := ForPlan(Features, plan);
    forall i | 0 <= i < |r| ensures SingleLine(r[i].text) {
      var j :| 0 <= j < |Features| && Features[j] == r[i];
    }
  }

  /** A stretch of the table listed wholly under `plan` is kept whole. */
  lemma {:induction false} ForPlanKeepsAll(xs: seq<Feature>, plan: string)
    requires forall i :: 0 <= i < |xs| ==> xs[i].plan == plan
    ensures ForPlan(xs, plan) == xs
  {
    if |xs| > 0 {
      ForPlanKeepsAll(xs[1..], plan);
      assert xs == [xs[0]] + xs[1..];
    }
  }

  /** A stretch of the table with no entry for `plan` contributes nothing. */
  lemma {:induction false} ForPlanDropsAll(xs: seq<Feature>, plan: string)
    requires forall i :: 0 <= i < |xs| ==> xs[i].plan != plan
    ensures ForPlan(xs, plan) == []
  {
    if |xs| > 0 {
      ForPlanDropsAll(xs[1..], plan);
    }
  }

  /** Of three consecutive stretches, a plan whose entries all sit in the middle one lists exactly that one. */
  lemma ForPlanPicksStretch(xs: seq<Feature>, ys: seq<Feature>, zs: seq<Feature>, plan: string)
    requires forall i :: 0 <= i < |xs| ==> xs[i].plan != plan
    requires forall i :: 0 <= i < |ys| ==> ys[i].plan == plan
    requires forall i :: 0 <= i < |zs| ==> zs[i].plan != plan
    ensures ForPlan(xs + ys + zs, plan) == ys
  {
    ForPlanAppend(xs + ys, zs, plan);
    ForPlanAppend(xs, ys, plan);
    ForPlanDropsAll(xs, plan);
    ForPlanKeepsAll(ys, plan);
    ForPlanDropsAll(zs, plan);
  }

  /** A stretch tagged with `plan` is kept whole by the filter for `plan`. */
  lemma TaggedKept(entries: seq<(string, bool)>, plan: string)
    ensures ForPlan(Tagged(entries, plan), plan) == Tagged(entries, plan)
  {
    ForPlanKeepsAll(Tagged(entries, plan), plan);
  }

  /** A stretch tagged with another plan contributes nothing to the filter for `plan`. */
  lemma TaggedDropped(entries: seq<(string, bool)>, tag: string, plan: string)
    requires tag != plan
    ensures ForPlan(Tagged(entries, tag), plan) == []
  {
    ForPlanDropsAll(Tagged(entries, tag), plan);
  }

  /** The filter's result on each stretch of the table, for each plan. */
  lemma StretchesFiltered()
    ensures ForPlan(FreeFeatures, "free") == FreeFeatures
    ensures ForPlan(PremiumFeatures, "free") == [] && ForPlan(ProFeatures, "free") == []
    ensures ForPlan(PremiumFeatures, "premium") == PremiumFeatures
    ensures ForPlan(FreeFeatures, "premium") == [] && ForPlan(ProFeatures, "premium") == []
    ensures ForPlan(ProFeatures, "pro") == ProFeatures
    ensures ForPlan(FreeFeatures, "pro") == [] && ForPlan(PremiumFeatures, "pro") == []
  {
    TaggedKept(FreeEntries, "free");
    TaggedDropped(PremiumEntries, "premium", "free");
    TaggedDropped(ProEntries, "pro", "free");
    TaggedKept(PremiumEntries, "premium");
    TaggedDropped(FreeEntries, "free", "premium");
    TaggedDropped(ProEntries, "pro", "premium");
    TaggedKept(ProEntries, "pro");
    TaggedDropped(FreeEntries, "free", "pro");
    TaggedDropped(PremiumEntries, "premium", "pro");
  }

  /** Of three stretches, when two are empty the concatenation is the third. */
  lemma OneStretch<T>(a: seq<T>, b: seq<T>, c: seq<T>)
    ensures b == [] && c == [] ==> a + b + c == a
    ensures a == [] && c == [] ==> a + b + c == b
    ensures a == [] && b == [] ==> a + b + c == c
  {
  }

  /** The free plan lists exactly its eight entries, in order. */
  lemma FreePlanFeatures()
    ensures ForPlan(Features, "free") == FreeFeatures
  {
    ForPlanSplits("free");
    StretchesFiltered();
    OneStretch(ForPlan(FreeFeatures, "free"), ForPlan(PremiumFeatures, "free"), ForPlan(ProFeatures, "free"));
  }

  /** The premium plan lists exactly its six entries, in order. */
  lemma PremiumPlanFeatures()
    ensures ForPlan(Features, "premium") == PremiumFeatures
  {
    ForPlanSplits("premium");
    StretchesFiltered();
    OneStretch(ForPlan(FreeFeatures, "premium"), ForPlan(PremiumFeatures, "premium"), ForPlan(ProFeatures, "premium"));
  }

  /** The pro plan lists exactly its four entries, in order. */
  lemma ProPlanFeatures()
    ensures ForPlan(Features, "pro") == ProFeatures
  {
    ForPlanSplits("pro");
    StretchesFiltered();
    OneStretch(ForPlan(FreeFeatures, "pro"), ForPlan(PremiumFeatures, "pro"), ForPlan(ProFeatures, "pro"));
  }

  /** The table's features for a plan are those of the free, premium and pro stretches, in that order. */
  lemma ForPlanSplits(plan: string)
    ensures ForPlan(Features, plan)
            == ForPlan(FreeFeatures, plan) + ForPlan(PremiumFeatures, plan) + ForPlan(ProFeatures, plan)
  {
    ForPlanAppend(FreeFeatures + PremiumFeatures, ProFeatures, plan);
    ForPlanAppend(FreeFeatures, PremiumFeatures, plan);
  }

  // ---------------------------------------------------------------------
  // The decorator

  /** The request's user: anonymous, or signed in with the value of its `subscription` attribute, if any. */
  datatype Requester =
    | Anonymous
    | SignedIn(subscriptionActive: Option<bool>)

  datatype Outcome<R> =
    | RedirectToLogin(next: string)
    | RedirectToSubscriptions
    | ViewResult(response: R)

  /**
   * `subscription_required(view)(request, *args)`: anonymous users go to the
   * login page with `?next=<path>`; users whose `subscription` attribute is
   * missing or inactive go to the subscriptions page; everyone else gets the
   * wrapped view, called with the same arguments.
   */
  function SubscriptionRequired<A, R>(view: A -> R, args: A, user: Requester, path: string): (r: Outcome<R>)
    ensures r.RedirectToLogin? <==> user.Anonymous?
    ensures r.RedirectToLogin? ==> r.next == path
    ensures r.ViewResult? <==> user == SignedIn(Some(true))
    ensures r.ViewResult? ==> r.response == view(args)
  {
    match user
    case Anonymous => RedirectToLogin(path)
    case SignedIn(sub) =>
      if sub.None? || !sub.value then RedirectToSubscriptions
      else ViewResult(view(args))
  }

  /** Where a redirect to the login page goes: the login URL with the requested path as `next`. */
  function LoginRedirectUrl(loginUrl: string, next: string): (url: string)
    ensures Text.StartsWith(url, loginUrl + "?next=")
    ensures Text.EndsWith(url, next)
  {
    loginUrl + "?next=" + next
  }

  /** The wrapped view is the only outcome that depends on the view at all. */
  lemma RedirectsIgnoreView<A, R>(view1: A -> R, view2: A -> R, args: A, user: Requester, path: string)
    requires user != SignedIn(Some(true))
    ensures SubscriptionRequired(view1, args, user, path) == SubscriptionRequired(view2, args, user, path)
  {
  }
}
