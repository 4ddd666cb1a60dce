TestResult.DisplayName,TestResult.Outcome,TestResult.Duration,TestResult.ResourceCount,RandomSeed
LinAlg.SolveSystemQR (correctness),Failed,00:00:02.2678441,5071711,5
LinAlg.SolveSystemQR (well-formedness),Passed,00:00:00.1759140,91572,5
