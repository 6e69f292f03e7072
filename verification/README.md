# Summit Study core, modelled in Dafny

This project models the core logic of Summit Study. Summit Study is a Django
study platform with AI-generated practice tests and flashcards, essay
grading, gamified points and levels, and Stripe subscriptions. Each
component is a module of pure functions over immutable datatypes. Each
operation has a contract, and lemmas relate operations to their partners:
inverses, invariants and independent reference descriptions.

The modules, by component:

- `Scoring` covers activity points (`calculate_points`, `award_points`),
  answer similarity (`is_similar_answer`) and credit metering
  (`deduct_credits`).
- `Grading` covers question grading (`QuestionGrader`), the practice-test score with
  half-to-even rounding, and the parsing of the AI essay grade.
- `ActivityImport` maps AI JSON to practice-test and flashcard records
  (`save_activity_from_json`). It also covers the extension, size and
  truncation checks of `decode_uploaded_file`.
- `Billing` covers the Stripe webhook as a function on a ledger of
  subscription rows, and `current_subscription`.
- `Accounts` covers user creation: email normalisation, username generation
  and the save hook. It also covers Stripe customer creation, monthly plan
  pricing and email-code verification.
- `Subscriptions` covers the pricing feature table and
  `subscription_required`.
- `Progress` covers the progress page: the score histogram, the practice,
  writing and flashcard summaries, and the recent-activity date.
- `Extras` covers levels, achievements, level progress and the chatbot's
  credit gate.
- `CreditFormat` covers the `format_credits` template filter.
- `FlashcardServer` covers `flashcard_nav_ajax` and `answer_flashcard`.
- `FlashcardClient` covers the browser session in flashcards.js: index,
  tallies, navigation buttons, finish payload and the Fisher–Yates shuffle.

Helper modules:

- `Text` holds the Python `str` operations on ASCII.
- `JsonValues` holds decoded JSON, including the `Infinity`, `-Infinity`
  and `NaN` that Python's decoder accepts, `dict.get` (last duplicate wins),
  iteration, truthiness and `int()`.
- `Arith` holds small facts about multiplication and division.
- `Wrappers` holds `Option` and `Result`.

Some inputs cannot be computed by the model, so they are parameters:

- Database contents: users, plans, subscription rows and progress rows.
- The current time.
- What Stripe's `Subscription.retrieve` and `Customer.create` return.
- The `fuzz.ratio` similarity.
- The uuid token of the username fallback.
- The `Math.random()` draws of the shuffle.
- The text extracted from an uploaded file.

Where the code and its documentation disagree, the model follows the code.
These are the places:

- The webhook has no `try`/`except` around the event handlers. A checkout
  or payment event whose retrieve fails, or that lacks `current_period_end`,
  ends in a server error. The model has a `ServerError` response for that
  case.
- `invoice.payment_succeeded` calls `Subscription.retrieve` before it looks
  for the local row. A failing retrieve therefore raises even for unknown
  subscriptions.
- `save(update_fields=...)` leaves `updated_at` unchanged.
- `answer_flashcard` looks up its progress row with the keyword `user`. The
  progress model's owner column is called `owner`, so the lookup never
  resolves (Findings, row 3).
- The `rstrip` calls in `format_credits` run after the "k" has been
  appended, so they never strip anything (Findings, row 4).

## Model

| member | source | states |
|---|---|---|
| Scoring.DifficultyPoints | myapp/utils.py:26-33 | The difficulty is looked up lower-cased, with a missing or empty label read as "easy". The points are 10/20/30/50 for the four known labels and 10 for any other. |
| Scoring.DifficultyIgnoresCase | myapp/utils.py:32-33 | A label and its lower-cased form are worth the same points. |
| Scoring.KnownDifficulties | myapp/utils.py:26-33 | "Medium", "HARD" and "Ultra-Hard" are worth 20, 30 and 50: labels are matched after lower-casing. |
| Scoring.DefaultDifficulty | myapp/utils.py:26-33 | A missing label, an empty label and a label outside the table ("expert") are all worth 10. |
| Scoring.TimePoints | myapp/utils.py:35-36 | One point per minute, clamped to [5, 100]. |
| Scoring.QuestionPoints | myapp/utils.py:40-43 | Two points per question, capped at 100. Activities without questions get 0. |
| Scoring.CalculatePoints | myapp/utils.py:21-47 | A zero score earns exactly 0. Otherwise a missing duration raises. When it succeeds, the total lies between score + 15 and score + 250. |
| Scoring.PointsDecompose | myapp/utils.py:21-47 | A non-zero score earns the difficulty, time, score and question parts summed. |
| Scoring.PointsTrackScore | myapp/utils.py:38-45 | For the same task, the difference between two non-zero scores passes unchanged into the points. |
| Scoring.AwardPoints | myapp/views.py:60-65 | The user's points grow by exactly the amount `calculate_points` returns, and that amount is returned. A calculation that raises awards nothing. |
| Scoring.IsSimilarAnswer | myapp/utils.py:249-261 | An empty answer on either side is never compared. Otherwise the ratio of the lower-cased, stripped texts is reported, and the answers match iff that ratio reaches the threshold. |
| Scoring.SimilarityIgnoresCase | myapp/utils.py:257-261 | Lower-casing either answer beforehand changes nothing. |
| Scoring.PaddedAnswerMatches | myapp/utils.py:254-261 | A correct answer with leading whitespace added matches with similarity 100. |
| Scoring.DeductCredits | myapp/utils.py:263-278 | Missing usage, or usage without a token count, leaves the balance alone. Otherwise exactly the total tokens are subtracted. |
| Scoring.DeductionsAccumulate | myapp/utils.py:263-278 | Two deductions subtract the sum of their tokens. A charge above the balance drives it negative, since nothing floors it at zero. |
| Grading.FirstCorrectOption | myapp/views.py:362 | The first option flagged correct, or None iff no option is. |
| Grading.GradeChoice | myapp/views.py:361-364 | A choice answer never gets a typo warning, and it is correct only if it is the id of an option flagged correct. |
| Grading.GradeChoiceMeaning | myapp/views.py:361-364 | A choice answer is correct iff some option is flagged correct and the answer is the id of the first such option. |
| Grading.GradeTrueFalse | myapp/views.py:367-369 | A true/false answer never gets a typo warning, and the stored answer itself is always accepted. |
| Grading.GradeTrueFalseIgnoresCase | myapp/views.py:368 | Lower-casing the answer or the stored answer does not change the grade. |
| Grading.GradeTextAsWritten | myapp/views.py:372-387 | As written, grading a text answer raises exactly when a stored answer exists and the stripped answer is empty. Otherwise it agrees with the corrected grading. |
| Grading.GradeText | myapp/views.py:372-387 | No stored answer, or an empty answer, is wrong with no warning. A typo warning goes only with a correct answer of similarity below 100, and it names the question and the answer given. |
| Grading.GradeQuestionAsWritten | myapp/views.py:343-358 | As written, only a text question with a stored answer can raise, and then by unpacking a bare `False`. A typo warning goes only with a correct answer. |
| Grading.GradeQuestion | myapp/views.py:343-387 | A typo warning is only ever attached to a correct answer. |
| Grading.GradeQuestionMeaning | myapp/views.py:343-387 | It grades per question type. Choice questions go by the first correct option's id. True/false compares lower-cased text. Text questions go by similarity, with a typo warning iff the match is below 100. A text question with no reference answer, or with a blank given answer, is wrong. Any other type is wrong. |
| Grading.GradeAsWrittenFailsOnlyOnBlankText | myapp/views.py:343-387 | `grade_question` as written agrees with the corrected grading except for a truthy but whitespace-only text answer, where it raises. |
| Grading.BlankTextAnswerRaises | myapp/views.py:372-376 | The answer " " to a text question passes the emptiness check but makes `grade_question` unpack a bare `False`. |
| Grading.GradeAt | myapp/views.py:402-410 | An unanswered question is wrong, with no typo warning. |
| Grading.CorrectCount | myapp/views.py:402-413 | No more questions are counted correct than there are. |
| Grading.RoundHalfEven | myapp/views.py:425 | Python's `round` on a ratio: the nearest integer, with ties going to the even neighbour. |
| Grading.PracticeScore | myapp/views.py:425 | The score is within half a point of 100·correct/total, or 0 with no questions, and ties go to the even integer. It always lies in [0, 100]. |
| Grading.FullMarksExactly | myapp/views.py:425 | With fewer than 200 questions, the score is 100 iff every question is correct. |
| Grading.ZeroScoreExactly | myapp/views.py:425 | With fewer than 200 questions, the score is 0 iff no question is correct. |
| Grading.TiesAtTwoHundred | myapp/views.py:425 | With 200 questions, 199 correct scores 100 and 1 correct scores 0: ties at 99.5 and 0.5 go to the even integer, so the 200-question bound above cannot be raised. |
| Grading.TakePracticeTest | myapp/views.py:396-426 | The corrected view, where a blank text answer is graded wrong. The test counts every question. The score comes from the correct count and stays in [0, 100]. There are no more typo warnings than correct answers. Points are awarded for that score. |
| Grading.GradeAtAsWritten | myapp/views.py:402-410 | As written, grading question i raises exactly when its answer is a truthy but blank answer to a text question with a stored answer. Otherwise the grade is the corrected one. |
| Grading.TakePracticeTestAsWritten | myapp/views.py:396-426 | As written, the view raises, awarding nothing, exactly when some question has such a blank text answer. Otherwise its outcome and award are those of the corrected view. |
| Grading.UnansweredCountsAsWrong | myapp/views.py:403-408 | With no answers at all, nothing is correct. |
| Grading.StrOf | myapp/views.py:564 | `str()` of a JSON string is the string itself. |
| Grading.ParseGradingResponse | myapp/views.py:556-568 | Anything but a decoded object falls back to (0, "AI failed to provide feedback."). So does a score `int()` rejects. Otherwise the result is the score (0 when absent) and the feedback ("" when absent). |
| Grading.GradeObjectRoundTrip | myapp/views.py:561-564 | A reply `{"score": s, "feedback": f}` parses back to (s, f). |
| Grading.GradeObjectNumericString | myapp/views.py:563 | A score sent as its decimal text parses to the same number. |
| Grading.MissingScoreIsZero | myapp/views.py:563 | A reply without "score" gets score 0 but keeps its feedback. |
| ActivityImport.GetFrom | myapp/utils.py:191 | `.get` works on an object: the member when present, otherwise the default. On anything else it raises AttributeError. |
| ActivityImport.SaveOption | myapp/utils.py:216-221 | An option row takes "text" (default "") and "is_correct" (default false). |
| ActivityImport.SaveOptions | myapp/utils.py:216-221 | Options are saved one row each, in order, and saving fails iff some option is not an object. |
| ActivityImport.SaveQuestion | myapp/utils.py:204-221 | A question must be an object. Its type defaults to "mcq" and its subject to the test's. Options are kept only when "question_type" is literally "mcq". |
| ActivityImport.SaveQuestions | myapp/utils.py:204-221 | Questions are saved one row each, in order. A failure comes from some question. |
| ActivityImport.SaveCards | myapp/utils.py:236-241 | Cards are saved one row each, with front and back defaulting to "". Saving fails iff some card is not an object. |
| ActivityImport.SavePracticeTest | myapp/utils.py:189-223 | The title defaults to "Untitled Test", the description to "", the subject to "General" and the difficulty to "Medium". The duration defaults to the caller's, and is_public is true. Question i is saved from item i under the test's subject. A non-object raises, and any other failure comes from the question list or one of its items. |
| ActivityImport.SaveFlashcardSet | myapp/utils.py:225-243 | The title defaults to "Untitled Flashcards", the description to "", the subject to "General" and the difficulty to "Medium". Card i takes front and back from item i, defaulting to "". A non-object raises, and once the card list is read, saving succeeds iff every item is an object. |
| ActivityImport.SaveActivityFromJson | myapp/utils.py:180-246 | An unknown activity type is rejected, and each known type saves its own kind of record. A non-object payload raises AttributeError. |
| ActivityImport.PracticeTestUnwrapOptional | myapp/utils.py:191 | `{"PracticeTest": x}` saves exactly as `x` does. |
| ActivityImport.FlashcardSetUnwrapOptional | myapp/utils.py:226 | `{"FlashcardSet": x}` saves exactly as `x` does. |
| ActivityImport.EmptyPracticeTestDefaults | myapp/utils.py:193-201 | `{}` saves a test with every default and no questions. |
| ActivityImport.UntypedQuestionHasNoOptions | myapp/utils.py:205-215 | A question without "question_type" is stored as "mcq" but gets no options. |
| ActivityImport.McqQuestionKeepsOptions | myapp/utils.py:215-221 | A question typed "mcq" keeps every option, in order. |
| ActivityImport.Extension | myapp/utils.py:61 | The extension is the text after the last dot, lower-cased, and contains no dot. |
| ActivityImport.Truncate | myapp/utils.py:96-97 | Text within 5000 characters is kept. Longer text keeps its first 5000 characters, followed by the truncation marker. |
| ActivityImport.DecodeUploadedFile | myapp/utils.py:54-101 | The extension is checked first, then the 5 MB size, then extraction. Success yields at most 5000 characters plus the marker, stripped. |
| ActivityImport.TruncatedTextEndsWithMarker | myapp/utils.py:96-99 | Over-long text of an accepted file ends in "...[truncated]". |
| ActivityImport.UpperCaseExtensionAccepted | myapp/utils.py:61-62 | "Notes.TXT" is accepted as a text file. |
| ActivityImport.DotlessNameRejected | myapp/utils.py:61-63 | A name with no dot has itself as extension and is rejected. |
| Billing.FirstIndex | accounts/views.py:266-267 | `.first()`: the first position satisfying the filter, or None iff none does. |
| Billing.UserWithCustomer | accounts/views.py:267 | The user found has the session's customer id, and None means no user has it. |
| Billing.PlanWithPrice | accounts/views.py:266 | The plan found has the price id, and None means no plan has it. |
| Billing.Upsert | accounts/views.py:270-282 | `update_or_create` keyed by subscription id: every other row is untouched. The keyed row gets the user, plan, customer, active flag and period end. A new row's creation time is now, and an existing row keeps its own. |
| Billing.OnCheckout | accounts/views.py:255-282 | A checkout without a subscription id changes nothing. A failure changes nothing. A change adds or overwrites only the session's subscription row, which becomes active for the session's customer. Every other row is untouched. |
| Billing.OnPaymentSucceeded | accounts/views.py:285-295 | No row is added or removed, and rows of other subscriptions are untouched. A change reactivates the existing row with the fetched period end and keeps its other columns. A failure changes nothing. |
| Billing.OnPaymentFailed | accounts/views.py:298-306 | It always answers 200. The named existing row is deactivated with its other columns kept. Every other row, and every row when no id is present, stays as it was. |
| Billing.OnSubscriptionChanged | accounts/views.py:309-317 | No row is added or removed, and rows of other subscriptions are untouched. A handled event for a known row sets active iff the status is "active" or "trialing", and sets the period end. A failure changes nothing. |
| Billing.HandleWebhook | accounts/views.py:240-319 | A bad signature is a 400 and changes nothing. A failed handler changes nothing. Only a checkout can add a row, and only the one for its subscription id. Unknown event types are acknowledged and ignored. |
| Billing.CheckoutUpserts | accounts/views.py:255-282 | A checkout with a subscription id, a known customer and a known price upserts exactly that row with the fetched period end. |
| Billing.CheckoutNeedsUserAndPlan | accounts/views.py:262-268 | A checkout that changes the ledger had a subscription id, a user with that customer id and a plan with that price id. |
| Billing.CheckoutIdempotent | accounts/views.py:269-282 | Delivering the same checkout twice at the same instant leaves the ledger as one delivery does. |
| Billing.CheckoutRedeliveryKeepsOneRow | accounts/views.py:269-282 | A later redelivery adds no row. It changes only the start and update timestamps. |
| Billing.PaymentSucceededTouchesOnlyItsRow | accounts/views.py:285-295 | A successful payment sets its own existing row active with the fetched period end. Nothing else changes. |
| Billing.PaymentFailedDeactivates | accounts/views.py:298-306 | A failed payment sets its own existing row inactive and keeps its end date. An unknown id changes nothing. |
| Billing.SubscriptionChangeSetsStatus | accounts/views.py:309-317 | An update or deletion sets active iff the status is "active" or "trialing", and sets the period end. It touches only that row. |
| Billing.UnknownSubscriptionIsNoOp | accounts/views.py:285-317 | Non-checkout events about subscriptions the ledger does not hold change nothing. |
| Billing.FailureAfterSuccessWins | accounts/views.py:285-306 | A failure delivered after a success leaves the row inactive with the success's period end. |
| Billing.CurrentSubscription | accounts/models.py:84-90 | It returns a current row of the user (active, end in the future) iff one exists. No current row of the user was created later. |
| Billing.CheckoutEntitles | accounts/views.py:255-282 | After a completed checkout whose period has not ended, the customer's user has a current subscription. |
| Billing.PaymentFailureRevokes | accounts/views.py:298-306 | A failed payment on a user's only subscription leaves no current subscription. |
| Accounts.NormalizeEmail | accounts/models.py:16 | An address without "@" after stripping is returned unchanged. Otherwise the result keeps the stripped length and an "@". |
| Accounts.NormalizeEmailMeaning | accounts/models.py:16 | A stripped `local@domain` whose domain has no "@" becomes `local@` + lower-cased domain. The local part is untouched. |
| Accounts.NormalizeEmailIdempotent | accounts/models.py:16 | Normalising twice is normalising once. |
| Accounts.SuffixSearch | accounts/models.py:61-64 | The counter stops at the first free candidate, or at 10000. Every candidate skipped was taken. |
| Accounts.GenerateUsername | accounts/models.py:56-68 | A free local part is used as it is. |
| Accounts.GenerateUsernameMeaning | accounts/models.py:56-68 | The name is the local part if free, else local+k for the first free k below 9999. If none is free it is "user_" + token. |
| Accounts.TakenBaseGetsSuffixOne | accounts/models.py:59-64 | "a@x.com" with "a" taken becomes "a1". |
| Accounts.EnsureUsername | accounts/models.py:92-94 | A user with a username keeps it. A user without one gets the generated name. |
| Accounts.Save | accounts/models.py:92-95 | Saving always leaves a username, changes nothing else, and leaves a user with a username as it was. |
| Accounts.SaveIdempotent | accounts/models.py:92-95 | Saving twice is saving once, whatever token the second save draws. |
| Accounts.CreateUser | accounts/models.py:13-22 | An empty email is rejected. An email whose normalised form is already stored is rejected, as the unique column refuses it. Otherwise the user gets the normalised email and always a username, the given one if non-empty. The stored email is already normalised. The customer id and verified flag come from the extra fields. |
| Accounts.CreateUserMeaning | accounts/models.py:13-22 | A user created without a username gets the first free name derived from the local part, or the token fallback. |
| Accounts.CreateStripeCustomer | accounts/models.py:70-82 | An existing customer id is returned unchanged and the provider is not called. Otherwise the call fails iff `Customer.create` raises, and then nothing is stored; on success the new id is stored and no other field changes. |
| Accounts.CreateStripeCustomerOnce | accounts/models.py:70-82 | A second call returns the first call's id and creates nothing, even when the provider would fail. |
| Accounts.FormatCents | accounts/models.py:132 | The text before the last three characters is the whole-dollar amount in decimal, then ".", then two digits worth the cents modulo 100. |
| Accounts.FormatCentsReadsBack | accounts/models.py:132 | Reading the rendered price back as digits gives the price in cents. |
| Accounts.YearlyMonthlyCents | accounts/models.py:134-135 | price / 12 · 0.8, to the cent: within half a cent of cents/15. |
| Accounts.GetMonthlyPrice | accounts/models.py:128-135 | 30-day plans show their price. 365-day plans show the rounded monthly equivalent. Any other duration shows nothing. |
| Accounts.YearlyMonthlyBelowPrice | accounts/models.py:134-135 | The monthly equivalent never exceeds the yearly price. |
| Accounts.FormatCentsInjective | accounts/models.py:132-135 | Different prices render differently. |
| Accounts.VerifyCodeAsWritten | accounts/views.py:116-125 | As written, success iff the entered code equals the session code, both possibly absent. Success verifies the email and consumes the code. |
| Accounts.VerifiedWithoutAnyCode | accounts/views.py:117-119 | As written, a request with no code verifies an account that was never sent one. |
| Accounts.VerifyCode | accounts/views.py:116-125 | Success iff a code was sent and the entered code equals it. Success verifies and consumes the code, and failure changes nothing. |
| Accounts.VerifyCodeSingleUse | accounts/views.py:119-122 | A code that succeeded cannot succeed again. |
| Accounts.VerifyCodeAgreesWhenSent | accounts/views.py:116-125 | Once a code has been sent, the corrected check and the code as written agree. |
| Subscriptions.Tagged | accounts/subscriptions.py:4-25 | Each table entry is listed under its plan, in order. |
| Subscriptions.ForPlan | accounts/subscriptions.py:30-31 | It keeps exactly the features of the plan: every one kept belongs to it, and every one of its features is kept. |
| Subscriptions.ForPlanAppend | accounts/subscriptions.py:30-31 | Filtering preserves table order across consecutive stretches. |
| Subscriptions.ForPlanIdempotent | accounts/subscriptions.py:30-31 | Filtering twice is filtering once. |
| Subscriptions.ForPlanPicksStretch | accounts/subscriptions.py:30-31 | A plan whose entries form one stretch of the table lists exactly that stretch. |
| Subscriptions.FreePlanFeatures | accounts/subscriptions.py:5-12 | The free plan lists exactly its eight entries, in order. |
| Subscriptions.PremiumPlanFeatures | accounts/subscriptions.py:14-19 | The premium plan lists exactly its six entries, in order. |
| Subscriptions.ProPlanFeatures | accounts/subscriptions.py:21-24 | The pro plan lists exactly its four entries, in order. |
| Subscriptions.RenderItem | accounts/subscriptions.py:32-33 | An item opens with the check icon iff the feature is available (the cross icon otherwise) and ends with its text. |
| Subscriptions.RenderAll | accounts/subscriptions.py:30-33 | One item per feature, in order. |
| Subscriptions.RenderFeaturesHtml | accounts/subscriptions.py:27-34 | A plan with no features renders as empty text. Otherwise splitting the output at its line breaks gives back exactly the rendered items of the plan's features, in order. |
| Subscriptions.SplitOn | accounts/subscriptions.py:34 | Splitting at a character gives at least one piece, and no piece contains that character. |
| Subscriptions.SplitJoin | accounts/subscriptions.py:34 | Joining pieces that do not contain the separator and splitting at it again gives back the pieces. |
| Subscriptions.RenderedLines | accounts/subscriptions.py:30-34 | Features whose texts have no line break render to items that the joined text splits back into. |
| Subscriptions.PlanTextsSingleLine | accounts/subscriptions.py:5-24 | No feature text of any plan contains a line break. |
| Subscriptions.SubscriptionRequired | accounts/subscriptions.py:96-112 | Anonymous users go to login with `next` = path. Users without an active subscription go to the subscriptions page. Exactly the users with an active subscription get the view's own response. |
| Subscriptions.LoginRedirectUrl | accounts/subscriptions.py:102-103 | The redirect is the login URL, then "?next=", then the path. |
| Subscriptions.RedirectsIgnoreView | accounts/subscriptions.py:99-108 | Redirect outcomes do not depend on the wrapped view. |
| Progress.Highest | progress/views.py:34-40 | The best score, or 0 without results. |
| Progress.Lowest | progress/views.py:34-41 | The worst score, or 0 without results. |
| Progress.BinOf | progress/views.py:45-46 | Non-negative scores land in bin min(score // 10, 9). Negative scores index from the end. Scores below -100 raise. |
| Progress.Distribution | progress/views.py:43-46 | The histogram counts every score's bin, or reports the first score that raises. |
| Progress.BinsSumToCount | progress/views.py:43-46 | When every score bins, the ten bins account for every result. |
| Progress.HistogramTotal | progress/views.py:43-46 | The bins of a successful histogram sum to the number of results. |
| Progress.PerfectScoreInTopBin | progress/views.py:45 | Scores 100 and 95 land in bin 9, 89 in bin 8, and 0 in bin 0. |
| Progress.SummarizePractice | progress/views.py:32-54 | It counts the results and reports zeros without results. Otherwise the highest and lowest scores are scores of some result, and every score lies between them. |
| Progress.SummarizeWriting | progress/views.py:56-72 | It counts the essays and reports zeros without essays. Otherwise the longest and shortest lengths are lengths of some essay, every length lies between them, and the average is the total length divided by the count, rounded down. |
| Progress.CountCompleted | progress/views.py:76 | No more sets are completed than exist. |
| Progress.KnownPercent | progress/views.py:81-82 | A set with no cards is 0%. Otherwise known/total·100 lies in [0, 100]. |
| Progress.KnownPercentExtremes | progress/views.py:81-82 | A set whose every card is known shows 100%, and one with none known shows 0%. |
| Progress.KnownPercentMonotone | progress/views.py:81-82 | For a fixed number of cards, knowing more cards never shows a lower percentage. |
| Progress.SummarizeFlashcards | progress/views.py:74-94 | Completed and in-progress sets add up to all sets. There is one percentage per set. |
| Progress.InProgressExtremes | progress/views.py:75-77 | All sets unfinished means all are in progress, and all finished means none is. |
| Progress.RecentActivity | progress/views.py:129-138 | It is absent iff there are no results of either kind. Otherwise it is the latest time across both kinds. |
| Progress.RecentActivitySymmetric | progress/views.py:132-138 | Swapping practice and writing results gives the same date. |
| Extras.Level | extras/views.py:12 | The level is the whole number of thousands of points, rounded down. |
| Extras.LevelMonotone | extras/views.py:12 | More points never mean a lower level. |
| Extras.UnlockedStaysUnlocked | extras/views.py:25 | An unlocked achievement stays unlocked as points grow. |
| Extras.AnnotateAchievements | extras/views.py:23-25 | An achievement is unlocked iff the level reaches its required level or it was earned before. |
| Extras.LevelProgress | extras/views.py:28 | Progress into the current level is a percentage in [0, 100). |
| Extras.LevelProgressPeriodic | extras/views.py:28 | A thousand more points raise the level by one and leave the progress unchanged. |
| Extras.Chatbot | extras/views.py:147-159 | Under 1000 credits is an error, and only that. A POST with a non-blank prompt sends it, stripped, to the assistant. |
| Extras.BlankPromptNotSent | extras/views.py:157-159 | A whitespace-only prompt is never sent. |
| CreditFormat.OneDecimal | myapp/templatetags/custom_filters.py:16 | The figure is the whole part of tenths/10 in decimal, then ".", then the digit for the tenths. |
| CreditFormat.TrimmedMeaning | myapp/templatetags/custom_filters.py:16 | Stripping trailing zeros and then the dot leaves the whole part, plus "." and the tenths digit only when that digit is not 0. |
| CreditFormat.Shape | myapp/templatetags/custom_filters.py:6-17 | Values on which `int()` raises TypeError or ValueError come back unchanged, and an infinity's OverflowError escapes the filter. Values under 1000 render as "<n> credits" and whole thousands as "<n>k". |
| CreditFormat.FractionAsWritten | myapp/templatetags/custom_filters.py:16 | As written, the `rstrip` calls meet the "k" and remove nothing. |
| CreditFormat.NearlyWholeThousandAsWritten | myapp/templatetags/custom_filters.py:16 | As written, 1040 shows as "1.0k credits". |
| CreditFormat.FormatCreditsAsWritten | myapp/templatetags/custom_filters.py:6-17 | As written: values on which `int()` raises TypeError or ValueError come back unchanged, an infinity raises OverflowError, values under 1000 show as "<n> credits", whole thousands as "<n>k", and anything else as the one-decimal figure followed by "k credits", its ".0" kept. |
| CreditFormat.FormatCredits | myapp/templatetags/custom_filters.py:6-17 | The corrected filter: the same shape, with fractional thousands ending in "k credits". |
| CreditFormat.AsWrittenDiffersOnlyOnWholeFigure | myapp/templatetags/custom_filters.py:16 | The code as written and the corrected filter differ only when the rounded figure ends in ".0". |
| CreditFormat.NumericTextRendersLikeNumber | myapp/templatetags/custom_filters.py:7-8 | The text "2500" renders like the number 2500. |
| CreditFormat.TwelveThousandExample | myapp/templatetags/custom_filters.py:12-16 | 12345 shows as "12.3k credits". |
| CreditFormat.NearlyWholeThousandExample | myapp/templatetags/custom_filters.py:16 | Corrected, 1040 shows as "1k credits". |
| CreditFormat.NonNumericUnchanged | myapp/templatetags/custom_filters.py:7-10 | Text that is not a number comes back as it was. |
| JsonValues.UnderscoreSeparatedDigits | myapp/templatetags/custom_filters.py:8 | `int()` of text ignores a single underscore between two groups of digits: "1_000" reads as 1000. |
| JsonValues.MisplacedUnderscoreRejected | myapp/templatetags/custom_filters.py:8 | `int()` of text rejects a doubled underscore and one at either end. |
| FlashcardServer.ParseBody | myapp/views.py:68-74 | A body that is not JSON reads as `{}`. |
| FlashcardServer.Step | myapp/views.py:739-742 | "next" gives min(i+1, n−1) and "prev" gives max(i−1, 0). Any other direction leaves the index unchanged. |
| FlashcardServer.PyIndex | myapp/views.py:744 | Python indexing reads position i, or n+i for a negative i. It raises outside [−n, n). |
| FlashcardServer.NavAjax | myapp/views.py:724-750 | A falsy body is a 400. A truthy non-object raises. An index on which `int()` raises ValueError or TypeError is the 400 "Invalid data format", and one on which it raises OverflowError escapes the view. A reply that moves reports the deck size and a card of the deck, the one at the new index. |
| FlashcardServer.StepStaysInDeck | myapp/views.py:739-742 | From a card of a non-empty deck, every direction stays in [0, n−1], moving by at most one. |
| FlashcardServer.NavFromCardStaysInDeck | myapp/views.py:724-750 | The request the page sends moves to a card of the deck and reports it. |
| FlashcardServer.EmptyDeckNeverMoves | myapp/views.py:744 | On an empty deck every request fails. |
| FlashcardServer.UndecodableBodyRejected | myapp/views.py:728-731 | A body that is not JSON is rejected as invalid. |
| FlashcardServer.NegativeIndexReadsFromEnd | myapp/views.py:735-744 | Index −1 with no direction shows the last card. |
| FlashcardServer.InfiniteIndexUncaught | myapp/views.py:733-737 | `{"current_index": Infinity}` or `-Infinity` makes `int()` raise OverflowError, which the `except (ValueError, TypeError)` does not catch: an uncaught 500. |
| FlashcardServer.NaNIndexInvalidFormat | myapp/views.py:733-737 | `{"current_index": NaN}` makes `int()` raise ValueError, which is reported as the 400 "Invalid data format". |
| FlashcardServer.Answer | myapp/views.py:775-790 | "known" and "not_known" each raise exactly their own counter, and any other action raises neither. The index advances by one. Reaching the deck size ends with a summary whose total is the deck size. |
| FlashcardServer.Run | myapp/views.py:775-790 | A run that continues has advanced the index once per answer. A run that finishes had at least one answer and reports the deck size. Neither counter goes down, and together they grow by at most one per answer. |
| FlashcardServer.RunKeepsCount | myapp/views.py:775-790 | With only rated answers, known + not_known equals the index. The session ends exactly at the deck size, and then the counts add up to the total. |
| FlashcardServer.FreshSessionCountsEveryCard | myapp/views.py:775-790 | A fresh session on n cards ends after n rated answers, with every card counted. |
| FlashcardServer.Matching | myapp/views.py:773 | The positions of exactly the user's rows for the set. |
| FlashcardServer.AnswerView | myapp/views.py:770-794 | A lookup keyword other than `owner` raises FieldError. Otherwise no matching row is a 404, several are a server error, and the single matching row is answered, then saved or, at the end of the deck, deleted. |
| FlashcardServer.AnswerFlashcardAsWritten | myapp/views.py:770-794 | As written, the lookup by `user` raises FieldError on every request. |
| FlashcardServer.AnswerFlashcard | myapp/views.py:770-794 | With the lookup by `owner`, the view never raises FieldError. It answers exactly when the user has one row for the set, and gives 404 for none and a server error for several. |
| FlashcardServer.AnswerAsWrittenAlwaysFails | myapp/views.py:773 | As written, a user with exactly one row for the set still gets FieldError, where the lookup by `owner` answers. |
| FlashcardServer.AnswerTouchesOnlyItsRow | myapp/views.py:773-794 | With the lookup by `owner`, the user's single row is answered, and no other row changes or disappears. |
| FlashcardClient.ResetLocalState | static/js/flashcards/flashcards.js:160-164 | Reset zeroes both tallies and the index, and keeps the deck. |
| FlashcardClient.RegularNavigate | static/js/flashcards/flashcards.js:145-148 | "next" moves on only when a later card exists, and "prev" moves back only from after the first card. Otherwise nothing changes. |
| FlashcardClient.RegularNavigateStaysInDeck | static/js/flashcards/flashcards.js:145-148 | Navigation never leaves [0, len−1]. |
| FlashcardClient.NavButtons | static/js/flashcards/flashcards.js:66-69 | Back is disabled iff the index is 0. Proceed is disabled iff the index is at least len−1. |
| FlashcardClient.ButtonsMatchNavigation | static/js/flashcards/flashcards.js:66-69 | Proceed is enabled exactly when "next" would move. From a card, Back is enabled exactly when "prev" would move. |
| FlashcardClient.FinishPayload | static/js/flashcards/flashcards.js:242-247 | The payload carries the tallies and the deck length. |
| FlashcardClient.StudyAnswer | static/js/flashcards/flashcards.js:131-136 | "known" counts as known and any other action as not known. The index advances by one, and the session is sent once the index reaches the deck length. |
| FlashcardClient.StudyRun | static/js/flashcards/flashcards.js:131-136 | A run of study answers keeps the deck and advances the index once per answer. Each tally grows by at most one per answer and never goes down. |
| FlashcardClient.StudyRunKeepsCount | static/js/flashcards/flashcards.js:131-135 | While only study answers run, known + notKnown keeps pace with the index. |
| FlashcardClient.ResetThenStudyToEnd | static/js/flashcards/flashcards.js:131-136 | After a reset, the answer to the last card sends tallies that add up to the deck length. |
| FlashcardClient.Pick | static/js/flashcards/flashcards.js:125 | `Math.floor(r·(i+1))` for r in [0, 1) lies in [0, i]. |
| FlashcardClient.Shuffle | static/js/flashcards/flashcards.js:123-128 | The shuffled deck is a permutation of the deck, and the session is reset. |
| FlashcardClient.Swap | static/js/flashcards/flashcards.js:126 | It exchanges two positions, leaves the rest, and keeps the multiset of cards. |

## Left out

- ActivityImport.SavePracticeTest, ActivityImport.SaveFlashcardSet: stored fields keep the JSON value they were given. The ORM would coerce or reject them on save: a `null` title fails the NOT NULL column, text such as "30 minutes" fails the integer duration, and "yes" fails the boolean `is_correct`. Success of these functions therefore means the JSON was read without error, not that every row was written.
- JsonValues.Json: a finite JSON number is an exact real rather than a binary float. A literal beyond the float range, such as `1e400`, is to be given as the infinity it decodes to.
- The database and transactions are not modelled. Rows are values passed in and returned. `save_activity_from_json` has no transaction, so a failure part-way leaves the rows saved so far. The model returns only the error.
- Stripe and OpenAI calls are parameters, and their payloads appear as event or reply data. Stripe's `Subscription.retrieve` in the webhook and `Customer.create` in `create_stripe_customer` are `Option`s, with `None` for a call that raised. A failed OpenAI grading call is the `FailedCall` reply. The webhook's signature check is a boolean input.
- `fuzz.ratio` is a parameter with values 0 to 100. Its algorithm is not modelled.
- PDF, DOCX and PPTX parsing is not modelled. The extracted text is an input, and a failing parser is `None`.
- Text operations cover ASCII case and whitespace only. Python's Unicode `lower()` and `strip()` tables are not modelled.
- Grading.PracticeScore: the score is computed on exact rationals, so float rounding of `correct / total * 100` is not modelled. The 200-question bound on FullMarksExactly and ZeroScoreExactly is needed because at 200 questions 199 correct is an exact tie at 99.5, which rounds to 100, and 1 correct is a tie at 0.5, which rounds to 0. Agreement with float rounding is not claimed.
- Progress.SummarizePractice: the average score is a float `Avg` rounded to two places, and is not modelled.
- Progress.KnownPercent: the value is not rounded to two places, and `known / total * 100` is divided exactly on reals rather than in binary floating point.
- Extras.LevelProgress: `(points % 1000) / 1000 * 100` is divided exactly on reals rather than in binary floating point, so 7 points give exactly 0.7 where the float result is 0.7000000000000001.
- CreditFormat.FormatCredits: the tenths digit of `f"{value/1000:.1f}"` comes from float formatting. It is an input, constrained to the value rounded down or up to a tenth of a thousand.
- Accounts.GenerateUsername: the uuid token of the fallback is an input.
- Accounts.CreateUser: the password hash and the `**extra_fields` columns other than the username, customer id and verified flag are not modelled. The unique-email error is a `DuplicateEmail` result rather than an exception out of `save`.
- Accounts.NormalizeEmail: this models Django's `normalize_email`, a Django framework function outside the Summit Study code.
- Accounts.GetMonthlyPrice: prices are whole cents, and negative prices are not modelled. Decimal quantisation of a half cent cannot arise from a whole-cent price divided by 15.
- Subscriptions.SubscriptionRequired: the user's `subscription` attribute is an input. `CustomUser` defines no such attribute, and `accounts:login` is not a URL name in accounts/urls.py. The decorator is applied nowhere.
- Billing.HandleWebhook: rows with no subscription id are not modelled. Timestamps are integers, and `fromtimestamp` is the identity.
- Grading.ParseGradingResponse: the essay score is not clamped to 0–100, matching the code.
- The `answer_flashcard_ajax`, `reset_flashcards_ajax`, dashboard and calendar views are outside the modelled core.
- The DOM, animation, modals and keyboard wiring of flashcards.js are not modelled. After a finished study session the page keeps accepting answers, and the model applies them as the code does.
- FlashcardServer.Run stops at the summary. Once the row is deleted, a further answer finds no row (404), and that answer is not modelled.

## Findings

| source | as written | input that shows it | evidently intended | confidence | as-written member | corrected member |
|---|---|---|---|---|---|---|
| myapp/views.py:372-376 | A text answer of only whitespace passes `if not user_answer`. It is stripped to "", `is_similar_answer` returns a bare `False`, and unpacking it raises TypeError. `take_practice_test` then fails with it and awards nothing. | Text question with answer "Paris", given answer " " | A blank answer is graded wrong | not executed; high | Grading.BlankTextAnswerRaises | Grading.GradeQuestionMeaning |
| accounts/views.py:116-125 | `entered_code == session_code` holds when both are `None`. | POST with `verify_code` and no `code`, with no code ever sent | Verification needs a code that was sent | not executed; high | Accounts.VerifiedWithoutAnyCode | Accounts.VerifyCodeSingleUse |
| myapp/views.py:773 | The progress row is looked up with `user=`, but the model's column is `owner`, so the lookup raises FieldError. | Any request for a set the user owns | The row is looked up by its owner | not executed; high | FlashcardServer.AnswerAsWrittenAlwaysFails | FlashcardServer.AnswerTouchesOnlyItsRow |
| myapp/templatetags/custom_filters.py:16 | `.rstrip('0').rstrip('.')` is applied after "k" is appended, so it strips nothing. | 1040 renders as "1.0k credits" | "1k credits" | not executed; high | CreditFormat.NearlyWholeThousandAsWritten | CreditFormat.NearlyWholeThousandExample |
