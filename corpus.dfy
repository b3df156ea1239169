/**
 * The read-only corpus the lookups run over: verses, perspective
 * templates, dated meditations and the corpus-wide meditation prompts.
 * Records are typed values; the corpus is passed to every operation.
 */
module Corpus {

  datatype Verse = Verse(reference: string, text: string, summary: string)

  datatype Perspective = Perspective(title: string, bullets: seq<string>)

  datatype Meditation = Meditation(
    date: string,
    reference: string,
    summary: string,
    applicationQuestions: seq<string>,
    prayer: string)

  datatype Corpus = Corpus(
    verses: seq<Verse>,
    perspectives: seq<Perspective>,
    meditations: seq<Meditation>,
    meditationPrompts: seq<string>)
}
