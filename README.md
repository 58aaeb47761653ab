# Career and course recommendation chatbot: a verified Dafny model

This project models the two recommendation cores of a console chatbot.

**The career guidance bot** (`career_guidence.py`) loads a table of rows once; each row has a
specialization, a career path and a `;`-separated skills text that may be missing. It builds two
dictionaries from the rows: specialization → the distinct careers seen with it (`career_mapping`) and
career → the distinct skill tokens seen with it (`career_skills`). It fixes a career list in the key
order of `career_skills`. A user's skills are then scored against every career. The scores come from
TF-IDF and cosine similarity, which this model takes as an input sequence of reals aligned with the
career list. The scored careers are sorted highest first, stably. Careers scoring strictly above 0.1
become recommendations. Each recommendation carries at most five skills of the career that the user
lacks, compared ignoring case, and the number of rows for that career. The answer is a no-match
message when nothing qualifies, and otherwise the first five recommendations.

**The course bot** (`course.py`) answers two queries over a course catalogue. The first is the
sorted list of distinct streams. The second is the courses of one stream, narrowed to an interest
when the interest has keywords: a course is kept when one keyword occurs in its name.

Files and modules:

- `seqs.dfy` — `Seqs`: list comprehension with a filter, subsequences, `xs[:n]`.
- `strings.dfy` — `Strings`: Python's `str.split`, `join`, `lower`, string `<`, and substring `in`.
- `career_index.dfy` — `CareerIndex`: dataset rows and reference definitions of what indexing must produce.
- `career_ranking.dfy` — `Ranking`: `zip` and the stable descending sort.
- `career_compose.dfy` — `Composer`: threshold, missing skills, peer count, formatting.
- `career_bot.dfy` — `CareerGuidance`: the bot as a class whose methods fill its dictionaries
  in place, and the loop that builds the recommendations.
- `courses.dfy` — `Courses`: the pure catalogue queries and their constant tables.

Three facts about the code shape the model:

- Skill tokens are not trimmed: `split(';')` keeps surrounding spaces and empty tokens.
- The 0.1 threshold and the no-match message live in the career bot.
- The five-entry cap is applied in `format_recommendations`.

## Model

| member | source | states |
|---|---|---|
| `CareerGuidance.CareerGuidanceBot.constructor` | career_guidence.py:8-20 | after construction the dictionaries and the career list are exactly those determined by the rows |
| `CareerGuidance.CareerGuidanceBot.ProcessDataset` | career_guidence.py:22-47 | `career_mapping` has one key per specialization of the rows, each listing the careers seen with it once; `career_skills` has one key per career, even when all its rows lack skills, each listing its tokens once; the key order is first-occurrence order |
| `CareerGuidance.CollectSpecCareers` | career_guidence.py:25-31 | the dictionary of sets built row by row has exactly the rows' specializations as keys, each mapped to the careers seen with it |
| `CareerGuidance.CollectCareerSkills` | career_guidence.py:37-44 | the dictionary of sets has exactly the rows' careers as keys, each mapped to the union of `;`-split tokens of its rows with skills; keys are recorded in first-occurrence order |
| `CareerGuidance.ListsOf` | career_guidence.py:34 | converting each set to a list keeps the keys and lists every member exactly once |
| `CareerGuidance.ListOf` | career_guidence.py:47 | `list(set)` holds each member once and nothing else, in an unspecified order |
| `CareerGuidance.CareerGuidanceBot.CreateSkillVectors` | career_guidence.py:49-54 | the career list is the key order of `career_skills` |
| `CareerGuidance.CareerGuidanceBot.GenerateRecommendations` | career_guidence.py:124-154 | the loop over the ranking yields exactly the formatted answer for the recommendations above the threshold, in ranked order |
| `CareerGuidance.AnswerSpec` | career_guidence.py:124-161 | for `Answer`, the bot's reply to a user: no skills gives the no-match message; otherwise career `careerList[i]` with score `scores[i]` is recommended iff that score exceeds 0.1; recommendations are non-increasing in score; at most five are listed and none left out scores above a listed one |
| `CareerGuidance.IndexCoversRows` | career_guidence.py:26-42 | every row's career is listed under the row's specialization and has a `career_skills` entry |
| `CareerGuidance.SkillsListSpec` | career_guidence.py:38-47 | a career's skill list has no duplicates and lists a token iff some row of that career has skills whose split contains it |
| `CareerIndex.SpecCareersSpec` | career_guidence.py:26-31 | a career belongs to a specialization's set iff some row carries both |
| `CareerIndex.EveryRowIndexed` | career_guidence.py:26-31 | each row's specialization is a key and its career is in that key's set |
| `CareerIndex.CareerSkillSetSpec` | career_guidence.py:38-44 | a token is a skill of a career iff some row of that career has a non-null skills text whose `split(';')` contains it |
| `CareerIndex.NullSkillsAddNothing` | career_guidence.py:42-44 | a row with null skills changes no career's skill set |
| `CareerIndex.CareersInOrderSpec` | career_guidence.py:40-54 | the career list is duplicate-free, holds exactly the rows' careers and is a subsequence of the career column |
| `CareerIndex.CareersInOrderFirstSeen` | career_guidence.py:40-54 | the career list is in first-occurrence order: if career `p` precedes career `q` in it, every row of `q` has a row of `p` above it |
| `Strings.Split` | career_guidence.py:43 | `split` always yields at least one piece and no piece contains the separator |
| `Strings.JoinSplit` | career_guidence.py:43 | joining the pieces of a split with the separator gives the text back |
| `Strings.SplitJoin` | career_guidence.py:43 | separator-free pieces are recovered by splitting their join |
| `Strings.Lower` | career_guidence.py:144 | the lowered string keeps the length and has no capital letter; a capital becomes the small letter at the same alphabet position, and every other character is kept |
| `Strings.LowerIdempotent` | career_guidence.py:144 | lowering an already lowered string changes nothing |
| `Composer.MissingSkillsOfLoweredUser` | career_guidence.py:142-144 | lowering the user's skills beforehand leaves every missing-skill list unchanged |
| `Ranking.SortSpec` | career_guidence.py:70 | `SortByScore`, the model of `sorted(..., reverse=True)`, is non-increasing by score, is a permutation, keeps the length, and for every score keeps the input order of the pairs with that score |
| `Ranking.Rank` | career_guidence.py:56-70 | empty skills give an empty ranking; otherwise the ranking is a permutation of `Zip(career_list, scores)` (truncated to the shorter input, as `zip` is), sorted non-increasing, stable on ties, with one entry per career when the scores are aligned |
| `Composer.MissingSkillsSpec` | career_guidence.py:141-144 | `MissingSkills` (the comprehension of lines 143-144): missing skills are an order-preserving subsequence of the career's skills; a skill is missing iff no user skill matches it ignoring case; every occurrence of such a skill is kept |
| `Composer.PeerCountSpec` | career_guidence.py:137 | the number of similar profiles is the number of rows with that career path, duplicates included |
| `Composer.RecommendationSpec` | career_guidence.py:136-152 | `MakeRecommendation`, the record built for one ranked career, keeps the ranked career and score; it lists at most five missing skills, exactly five when at least five are missing and all of them when fewer are missing; they are the first missing skills in the career's order, and none matches a user skill ignoring case; it counts the career's rows |
| `Composer.RecommendationsSpec` | career_guidence.py:134-152 | the recommended pairs are the ranked pairs scoring strictly above 0.1, as an order-preserving subsequence; a sorted ranking gives sorted recommendations |
| `Composer.RecommendedIff` | career_guidence.py:134-135 | a career is recommended iff the ranking gives it a score strictly above 0.1 (exactly 0.1 is excluded) |
| `Composer.RecommendationsSnoc` | career_guidence.py:134-146 | one more ranked pair adds its recommendation iff it is above the threshold |
| `Composer.MissingSkillsIgnoreUserCase` | career_guidence.py:142-144 | changing the case of the user's skills leaves every missing-skill list unchanged |
| `Composer.MissingSkillsIgnoreRequiredCase` | career_guidence.py:143-144 | changing the case of a career's skills changes only the case of its missing skills, position by position |
| `Composer.FormatRecommendations` | career_guidence.py:156-161 | no recommendations gives the no-match message for the name; otherwise the greeting and a non-empty prefix of at most five recommendations, all of them when fewer than five |
| `Composer.ShownAreBest` | career_guidence.py:161 | with recommendations in ranked order, no recommendation left out scores above a listed one |
| `Seqs.FilterSpec` | course.py:46 | a comprehension filter is an order-preserving subsequence keeping every occurrence of the accepted elements and nothing else |
| `Courses.UniqueStreams` | course.py:42-43 | the stream list is strictly ascending in Python string order (`Strings.Less`, whose irreflexivity, transitivity and totality are proved) and contains exactly the streams present in the courses |
| `Courses.AscendingNoDup` | course.py:43 | the stream list is duplicate-free |
| `Courses.GetRecommendations` | course.py:45-74 | every returned course has the requested stream; the result is an order-preserving subsequence of the courses and no longer than them; for "All Courses" or an interest without keywords it is the stream filter |
| `Courses.StreamFilterSpec` | course.py:46 | the stream filter keeps every occurrence of each course of the stream and nothing else |
| `Courses.InterestFilterSpec` | course.py:69-73 | for an interest with keywords, a stream course is kept, every time it occurs, iff one of its keywords occurs in its name, case-sensitively |
| `Courses.KeywordFilterSpec` | course.py:70-73 | the two filters in a row keep exactly the stream courses whose names contain a keyword |
| `Strings.ContainsIffOccurs` | course.py:72 | the substring test holds iff the keyword occurs at some position of the name |
| `Courses.OfferedInterestsHaveKeywords` | course.py:8-13 | every interest in `interest_map` (course.py:8-13), which excludes "All Courses", is a key of the keyword table |

## Left out

- TF-IDF fitting and cosine similarity (career_guidence.py:19, 53, 63, 66) come from an external
  numerical library, so the scores are an input sequence of reals aligned with the career list.
  The model assumes nothing about their range.
- CareerGuidance.CareerGuidanceBot.constructor: `fit_transform` (career_guidence.py:53) raises on
  an empty vocabulary, for example, with no rows or when every `Skills` cell is null or holds only stop
  words or one-character tokens; Python's constructor then fails, while the model's constructor always succeeds.
- Scores are exact reals, not binary floating point, so the threshold 0.1 is exact.
- The dialogue model's `get_response` and its tokenizer (career_guidence.py:10-12, 72-85) are a
  pretrained foreign model.
- The average qualifying score (career_guidence.py:138) is a pandas floating-point mean that can be
  undefined. Recommendations carry no average.
- The match-score and average-score lines of the listing (career_guidence.py:163-164) need float
  formatting. The rest of the listing text (the numbered career line, the missing-skills line and
  the peer-count line, career_guidence.py:162, 165-167) is abstracted too: a listing is modelled as
  its greeting plus the recommendations it shows.
- The specialization lookup `spec_careers` (career_guidence.py:128) has no consumer and is not modelled.
- The `education` and `score` answers that `start_guidance` collects are not used by the composer,
  so `UserData` omits them.
- Console and file I/O are outside the model: `start_guidance`, `main`, `load_courses`,
  `print_bot_message` with its sleep, and the course bot's `run` loop. The appending of
  "All Courses" to `interest_map` on every pass of `run` is left out with that loop.
- Each row keeps only the columns the core reads. The undergraduate course and the percentage
  column are not modelled, and pandas nulls in columns other than `Skills` are not modelled.
- Strings.Lower: only the ASCII letters A–Z are lowered. Python's `str.lower` also lowers other
  Unicode letters, and no Unicode case table is modelled.
- CareerGuidance.ListOf: Python's set iteration order depends on string hashing. The model picks
  members in an unspecified order, so the order of `career_skills` lists is left open. The contracts
  state only which members appear, each exactly once. Because of this, the order of missing skills
  is not determined by the rows.
- Ranking.SortByScore is a stable insertion sort, not Python's Timsort. Every stable sort gives the
  same result; the model proves the stable-sort properties but not that uniqueness.
- `main.py` is a menu that constructs and runs the two bots; it is not part of this model.
