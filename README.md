# Keyword symptom checker

The health assistant has a keyword symptom checker, `analyze_symptoms`. It takes the
patient's free-text description of their symptoms and returns one of three fixed
advice messages:

- The text is lower-cased first.
- If it contains both "fever" and "cough", the answer is the Flu/COVID-19 message.
- Otherwise, if it contains "headache", the answer is the migraine/tension-headache message.
- Otherwise, the answer is "Unable to determine condition…".

"Contains" means substring containment, as Python's `in` does on strings.

The model has two modules:

- `Text` (text.dfy) holds the string primitives. `LowerChar` and `ToLower` lower-case
  ASCII text. `Contains` is substring search, scanning start positions from left to
  right. `Mentions` is an independent reference predicate: a word appears in a text at
  some position, with case ignored character by character. `ContainsLoweredIffMentions`
  proves that searching the lower-cased text agrees with `Mentions`.
- `SymptomChecker` (symptom_checker.dfy) holds the three messages, `AnalyzeSymptoms`,
  and lemmas about precedence, case-insensitivity, substring matching and adding text.
  `AnalyzeSymptoms` follows the source's if/elif/else. Its contract gives each message's
  condition in terms of `Mentions`, so it does not restate its own body.

## Model

| member | source | states |
|---|---|---|
| Text.LowerChar | utils/symptom_checker.py:6 | the result is never an upper-case ASCII letter; a character changes exactly when it is an upper-case letter, and it becomes the lower-case letter at the same place in the alphabet |
| Text.ToLower | utils/symptom_checker.py:6 | lower-casing keeps the length, lower-cases every character in place, and leaves no upper-case letter |
| Text.ToLowerFixesExactlyLower | utils/symptom_checker.py:6 | lower-casing leaves a text unchanged exactly when the text has no upper-case letter |
| Text.ToLowerIdempotent | utils/symptom_checker.py:6 | lower-casing twice gives the same text as lower-casing once |
| Text.ToLowerAppend | utils/symptom_checker.py:6 | lower-casing a concatenation is the concatenation of the lower-cased parts |
| Text.Contains | utils/symptom_checker.py:7-9 | substring search, as Python's `in` on strings: the empty needle is found in every haystack, and a needle that is found is no longer than the haystack; its full meaning is given by ContainsIffOccurs |
| Text.ContainsIffOccurs | utils/symptom_checker.py:7-9 | the substring search succeeds exactly when the needle occurs at some start position of the haystack (both directions) |
| Text.MatchesAtIffOccursLowered | utils/symptom_checker.py:6-9 | a keyword matches the text at a position, case ignored, exactly when it occurs at that position in the lower-cased text |
| Text.ContainsLoweredIffMentions | utils/symptom_checker.py:6-9 | searching the lower-cased text for a lower-case keyword succeeds exactly when the original text holds the keyword with case ignored |
| Text.MentionsExtend | utils/symptom_checker.py:7-9 | a keyword found in a text is still found after text is added before or after it |
| SymptomChecker.AnalyzeSymptoms | utils/symptom_checker.py:1-12 | total: always one of the three messages; Flu/COVID-19 exactly when the text mentions both "fever" and "cough"; migraine exactly when it mentions "headache" but not both "fever" and "cough"; undetermined exactly when neither condition holds (case ignored, substring match) |
| SymptomChecker.CaseInsensitive | utils/symptom_checker.py:6 | two texts that agree character by character after lower-casing get the same message |
| SymptomChecker.AnalyzeLowered | utils/symptom_checker.py:6 | lower-casing a description before analysing it does not change the message |
| SymptomChecker.FluBeatsHeadache | utils/symptom_checker.py:7-10 | a text mentioning fever, cough and headache gets the Flu/COVID-19 message, not the migraine one |
| SymptomChecker.FluSurvivesMoreText | utils/symptom_checker.py:7-8 | adding text on either side of a description that gets the Flu/COVID-19 message still gets that message |
| SymptomChecker.DeterminedSurvivesMoreText | utils/symptom_checker.py:7-12 | adding text on either side never turns a Flu/COVID-19 or migraine answer into the undetermined message |
| SymptomChecker.FeverAloneUndetermined | utils/symptom_checker.py:7-12 | "fever" alone gets the undetermined message |
| SymptomChecker.HeadachesIsMigraine | utils/symptom_checker.py:9-10 | "headaches" gets the migraine message: a keyword matches inside a longer word |
| SymptomChecker.ShoutedInflectedSymptomsAreFlu | utils/symptom_checker.py:6-8 | "COUGHING and FEVERISH" gets the Flu/COVID-19 message: case and word boundaries are ignored |
| SymptomChecker.NegatedFeverStillMatches | utils/symptom_checker.py:7-8 | "cough but no fever" gets the Flu/COVID-19 message: a negated symptom still matches |

## Left out

- Text.LowerChar: lower-cases only the 26 ASCII letters. Python's `str.lower` applies full Unicode case mapping, which changes other letters and can change a text's length. Non-ASCII text is therefore not modelled exactly.
- Text.ToLower: same ASCII-only restriction as `LowerChar`. This does not change the answer of `SymptomChecker.AnalyzeSymptoms`. Outside A-Z, only two characters lower-case to anything containing ASCII: U+0130 becomes "i" plus a combining dot, and U+212A (the Kelvin sign) becomes "k". None of the keywords "fever", "cough" and "headache" contains "i" or "k". So the model gives the same message as `analyze_symptoms` for every string it can represent.
- app.py is not part of this model. It holds the Streamlit user interface, browser geolocation, microphone recording, the HTTP call to a transcription service and map rendering. All of it is I/O or network code.
- utils/medgpt_pipeline.py is not part of this model. It loads models when the module is imported (utils/medgpt_pipeline.py:7-13). `detect_language`, `translate_to_english` and `translate_from_english` are thin wrappers over the langdetect and transformers libraries. Each has a bare `except` fallback: it returns "en" or the untranslated text (lines 19-20, 29-30, 39-40). `get_medical_response` generates text with sampling switched on (line 43). It is the only call that samples. `process_symptom_text` only sequences these calls.
- utils/image_inference.py is not part of this model. It does image encoding, a network request to a vision service and temporary-file handling.
- utils/image_diagnosis.py is not part of this model. It opens an image and returns a fixed placeholder string. If the image cannot be opened, it returns an error string instead (utils/image_diagnosis.py:13-14). There is no logic beyond that.
- app.py picks a reference dataset (app.py:39) and passes it as `dataset=` to `process_symptom_text`, unpacking two results (app.py:49). The `process_symptom_text` in utils/medgpt_pipeline.py:46 takes only one parameter and returns one value. No dataset loading or example retrieval appears anywhere in the code, so none is modelled.
